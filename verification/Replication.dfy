/** One-way replication from a predecessor to a successor, on values: the write log with its bounded
    history, snapshots, incremental records, and what a crash leaves behind. */
module Replication {
  import opened Common
  import opened Documents
  import A = Authority

  datatype Record = Record(lsn: nat, key: Text, value: Text, epoch: nat, generation: nat, origin: A.Incarnation)

  /** A node's working copy. */
  datatype Replica = Replica(doc: Document, lsn: nat, records: seq<Record>)

  datatype Snapshot = Snapshot(lsn: nat, doc: Document)

  // ---------------------------------------------------------------- the record log

  /** The records carry consecutive positions and end at `lsn`; there may be none. */
  predicate Gapless(records: seq<Record>, lsn: nat) {
    forall i :: 0 <= i < |records| ==> records[i].lsn + (|records| - 1 - i) == lsn
  }

  function KeptOnCompaction(limit: nat): nat { if limit / 2 == 0 then 1 else limit / 2 }

  function Compact(records: seq<Record>, limit: nat): seq<Record> {
    var keep := KeptOnCompaction(limit);
    if |records| > keep then records[|records| - keep..] else records
  }

  /** Appending one record; a log that outgrows its limit is compacted. */
  function Append(records: seq<Record>, record: Record, limit: nat): seq<Record> {
    var all := records + [record];
    if |all| > limit then Compact(all, limit) else all
  }

  lemma AppendGapless(records: seq<Record>, record: Record, limit: nat, lsn: nat)
    requires Gapless(records, lsn) && record.lsn == lsn + 1
    ensures Gapless(Append(records, record, limit), lsn + 1)
    ensures Append(records, record, limit) != []
    ensures Append(records, record, limit)[|Append(records, record, limit)| - 1] == record
  {
    var all := records + [record];
    assert Gapless(all, lsn + 1);
    var keep := KeptOnCompaction(limit);
    if |all| > keep {
      var d := |all| - keep;
      forall i | 0 <= i < keep ensures all[d..][i] == all[d + i] {}
    }
  }

  function Max(a: nat, b: nat): nat { if a < b then b else a }

  /** What is kept after an append are the newest records: all of them while they fit the limit, and half the limit, but
      at least one, once they outgrow it. */
  lemma NewestAreKept(records: seq<Record>, record: Record, limit: nat)
    ensures var all, kept := records + [record], Append(records, record, limit);
            && |kept| == (if |records| + 1 <= limit then |records| + 1 else Max(1, limit / 2))
            && |kept| <= |all| && kept == all[|all| - |kept|..]
  {
  }

  lemma AppendMembers(records: seq<Record>, record: Record, limit: nat)
    ensures forall r :: r in Append(records, record, limit) ==> r in records || r == record
  {
  }

  /** What loading keeps of the durable log: the records at or below the committed position. */
  function Committed(log: seq<Record>, lsn: nat): seq<Record> {
    if log == [] then []
    else
      var n := |log| - 1;
      Committed(log[..n], lsn) + (if log[n].lsn <= lsn then [log[n]] else [])
  }

  /** Consecutive positions, ending wherever they end. */
  predicate Consecutive(log: seq<Record>) {
    log != [] ==> Gapless(log, log[|log| - 1].lsn)
  }

  lemma {:induction false} CommittedOfRun(log: seq<Record>, top: nat, lsn: nat)
    requires Gapless(log, top)
    ensures Committed(log, lsn) ==
            if top <= lsn then log else if |log| <= top - lsn then [] else log[..|log| - (top - lsn)]
    decreases |log|
  {
    if log != [] {
      var n := |log| - 1;
      if top > 0 {
        assert Gapless(log[..n], top - 1);
        CommittedOfRun(log[..n], top - 1, lsn);
        if top > lsn && |log| > top - lsn { assert log[..n][..n - (top - 1 - lsn)] == log[..|log| - (top - lsn)]; }
      } else {
        assert log[0].lsn + n == top;
        assert log[..n] == [];
      }
      assert log == log[..n] + [log[n]];
    }
  }

  /** A log that reaches the committed position, or is empty, loads as a gapless run ending there (or empty)
      that holds exactly its committed records. */
  lemma CommittedIsGapless(log: seq<Record>, lsn: nat)
    requires Consecutive(log) && (log != [] ==> lsn <= log[|log| - 1].lsn)
    ensures Gapless(Committed(log, lsn), lsn)
    ensures forall r :: r in Committed(log, lsn) <==> r in log && r.lsn <= lsn
    ensures (log != [] ==> log[|log| - 1].lsn == lsn) ==> Committed(log, lsn) == log
  {
    if log != [] {
      var top := log[|log| - 1].lsn;
      CommittedOfRun(log, top, lsn);
      var c := Committed(log, lsn);
      forall r | r in log && r.lsn <= lsn ensures r in c {
        var i :| 0 <= i < |log| && log[i] == r;
        assert i < |c| && c[i] == r;
      }
    }
  }

  // ---------------------------------------------------------------- node operations

  function RecordFor(r: Replica, key: Text, value: Text, epoch: nat, generation: nat, origin: A.Incarnation): Record {
    Record(r.lsn + 1, key, value, epoch, generation, origin)
  }

  /** Applies one record that is the next position of the replica. */
  function ApplyNext(r: Replica, record: Record, limit: nat): Result<Replica> {
    var put := Put(r.doc.fields, record.key, record.value);
    if put.Err? then Err(put.code)
    else Ok(Replica(r.doc.(fields := put.value), record.lsn, Append(r.records, record, limit)))
  }

  /** A local write. */
  function Write(r: Replica, key: Text, value: Text, epoch: nat, generation: nat, origin: A.Incarnation,
                 limit: nat): Result<Replica> {
    if r.lsn >= MAX_U64 then Err(BoundsExceeded)
    else ApplyNext(r, RecordFor(r, key, value, epoch, generation, origin), limit)
  }

  /** One record of a replicated batch. */
  function ApplyOne(r: Replica, record: Record, source: A.Incarnation, limit: nat): Result<Replica> {
    if record.origin != source then Err(StaleIncarnation)
    else if r.lsn >= MAX_U64 || record.lsn != r.lsn + 1 then Err(NotReady)
    else ApplyNext(r, record, limit)
  }

  /** One record is taken exactly from the expected source, at the next position, within the document's bounds; the
      document then has exactly that field changed, and the record ends the log. */
  lemma TakenExactly(r: Replica, record: Record, source: A.Incarnation, limit: nat)
    ensures var one := ApplyOne(r, record, source, limit);
            && (one.Ok? <==>
                  && record.origin == source && record.lsn == r.lsn + 1 && r.lsn < MAX_U64
                  && Put(r.doc.fields, record.key, record.value).Ok?)
            && (record.origin != source ==> one == Err(StaleIncarnation))
            && (one.Ok? ==>
                  && one.value.doc == Document(r.doc.schema, r.doc.fields[record.key := record.value])
                  && one.value.lsn == r.lsn + 1
                  && one.value.records != [] && one.value.records[|one.value.records| - 1] == record)
  {
    if ApplyOne(r, record, source, limit).Ok? { NewestAreKept(r.records, record, limit); }
  }

  /** A replicated batch: the records before the first refused one take effect. */
  function ApplyBatch(r: Replica, batch: seq<Record>, source: A.Incarnation, limit: nat): (Replica, Status)
    decreases |batch|
  {
    if batch == [] then (r, SUCCESS)
    else
      var one := ApplyOne(r, batch[0], source, limit);
      if one.Err? then (r, Err(one.code))
      else ApplyBatch(one.value, batch[1..], source, limit)
  }

  function Install(s: Snapshot): Replica { Replica(s.doc, s.lsn, []) }

  /** The records after `from`, at most `limit` of them. */
  function ReadSince(records: seq<Record>, from: nat, limit: nat): (r: seq<Record>)
    ensures |r| <= limit
    decreases |records|
  {
    if records == [] || limit == 0 then []
    else if records[0].lsn <= from then ReadSince(records[1..], from, limit)
    else [records[0]] + ReadSince(records[1..], from, limit - 1)
  }

  lemma {:induction false} ReadFromRecords(records: seq<Record>, from: nat, limit: nat)
    ensures forall x :: x in ReadSince(records, from, limit) ==> x in records && x.lsn > from
    decreases |records|
  {
    if records != [] && limit > 0 {
      if records[0].lsn <= from { ReadFromRecords(records[1..], from, limit); }
      else { ReadFromRecords(records[1..], from, limit - 1); }
    }
  }

  // ---------------------------------------------------------------- the simple form: folding the history

  datatype Edit = Edit(key: Text, value: Text)

  /** The writes made since some starting point: the fields and position there, and the writes in order. */
  datatype History = History(start: Fields, base: nat, edits: seq<Edit>) {
    function End(): nat { base + |edits| }

    function Then(edit: Edit): History { this.(edits := edits + [edit]) }
  }

  /** The fields after the given writes, starting from `start`. */
  function Replay(start: Fields, edits: seq<Edit>): Fields {
    if edits == [] then start
    else
      var n := |edits| - 1;
      Replay(start, edits[..n])[edits[n].key := edits[n].value]
  }

  /** The fields at a position of the history. */
  function FieldsAt(h: History, lsn: nat): Fields
    requires h.base <= lsn <= h.End()
  {
    Replay(h.start, h.edits[..lsn - h.base])
  }

  lemma NextFields(h: History, lsn: nat)
    requires h.base <= lsn < h.End()
    ensures var edit := h.edits[lsn - h.base];
            FieldsAt(h, lsn + 1) == FieldsAt(h, lsn)[edit.key := edit.value]
  {
    var k := lsn - h.base;
    assert h.edits[..k + 1][..k] == h.edits[..k];
  }

  /** A further write leaves the fields at every earlier position alone. */
  lemma FieldsStay(h: History, edit: Edit, lsn: nat)
    requires h.base <= lsn <= h.End()
    ensures FieldsAt(h.Then(edit), lsn) == FieldsAt(h, lsn)
  {
    assert (h.edits + [edit])[..lsn - h.base] == h.edits[..lsn - h.base];
  }

  // ---------------------------------------------------------------- the replicating pair

  /** A working copy, and the document and position its state file holds. The durable log equals the
      working copy's records. */
  datatype Side = Side(mem: Replica, savedDoc: Document, savedLsn: nat)

  /** What a reopened node starts from, given the durable log. */
  function Reloaded(savedDoc: Document, savedLsn: nat, log: seq<Record>): Side {
    Side(Replica(savedDoc, savedLsn, Committed(log, savedLsn)), savedDoc, savedLsn)
  }

  function SavedNow(mem: Replica): Side { Side(mem, mem.doc, mem.lsn) }

  datatype Pair = Pair(
    history: History, pred: Side, succ: Side, synced: bool, snapshots: set<Snapshot>, sent: set<Record>)

  datatype Event =
    | WriteAt(key: Text, value: Text, epoch: nat, generation: nat, origin: A.Incarnation, crash: bool)
    | TakeSnapshot
    | InstallAt(snapshot: Snapshot, crash: bool)
    | ReadAt(from: nat, max: nat)
    | ApplyAt(batch: seq<Record>, source: A.Incarnation, crash: bool)
    | RestartPredecessor
    | RestartSuccessor
    | SaveSuccessor

  /** A write at the predecessor; a crash before the state file is replaced leaves only the longer log. */
  function WriteStep(p: Pair, e: Event, limit: nat): Pair
    requires e.WriteAt?
  {
    var w := Write(p.pred.mem, e.key, e.value, e.epoch, e.generation, e.origin, limit);
    if w.Err? then p
    else if e.crash then p.(pred := Reloaded(p.pred.savedDoc, p.pred.savedLsn, w.value.records))
    else p.(history := p.history.Then(Edit(e.key, e.value)), pred := SavedNow(w.value))
  }

  /** A batch at the successor. A batch that is refused part-way keeps its accepted part in memory without
      saving; a crash falls back to the state file. */
  function ApplyStep(p: Pair, e: Event, limit: nat): Pair
    requires e.ApplyAt?
  {
    var (mem, status) := ApplyBatch(p.succ.mem, e.batch, e.source, limit);
    if e.crash then p.(succ := Reloaded(p.succ.savedDoc, p.succ.savedLsn, mem.records))
    else if status.Ok? then p.(succ := SavedNow(mem))
    else p.(succ := p.succ.(mem := mem))
  }

  function InstallStep(p: Pair, e: Event): Pair
    requires e.InstallAt?
  {
    if e.crash then p.(succ := Reloaded(p.succ.savedDoc, p.succ.savedLsn, []))
    else p.(succ := SavedNow(Install(e.snapshot)), synced := true)
  }

  function Step(p: Pair, e: Event, predLimit: nat, succLimit: nat): Pair {
    match e
    case WriteAt(_, _, _, _, _, _) => WriteStep(p, e, predLimit)
    case TakeSnapshot => p.(snapshots := p.snapshots + {Snapshot(p.pred.mem.lsn, p.pred.mem.doc)})
    case InstallAt(_, _) => InstallStep(p, e)
    case ReadAt(from, max) => p.(sent := p.sent + set r | r in ReadSince(p.pred.mem.records, from, max))
    case ApplyAt(_, _, _) => ApplyStep(p, e, succLimit)
    case RestartPredecessor => p.(pred := Reloaded(p.pred.savedDoc, p.pred.savedLsn, p.pred.mem.records))
    case RestartSuccessor => p.(succ := Reloaded(p.succ.savedDoc, p.succ.savedLsn, p.succ.mem.records))
    case SaveSuccessor => p.(succ := SavedNow(p.succ.mem))
  }

  /** Only snapshots that were taken are installed and only records that were read are applied, but in any
      order, any number of times and in any mixture. */
  predicate Enabled(p: Pair, e: Event) {
    match e
    case InstallAt(snapshot, _) => snapshot in p.snapshots
    case ApplyAt(batch, _, _) => forall r :: r in batch ==> r in p.sent
    case _ => true
  }

  function RunOf(p: Pair, events: seq<Event>, predLimit: nat, succLimit: nat): Pair
    decreases |events|
  {
    if events == [] then p else RunOf(Step(p, events[0], predLimit, succLimit), events[1..], predLimit, succLimit)
  }

  predicate Legal(p: Pair, events: seq<Event>, predLimit: nat, succLimit: nat)
    decreases |events|
  {
    events != [] ==>
      Enabled(p, events[0]) && Legal(Step(p, events[0], predLimit, succLimit), events[1..], predLimit, succLimit)
  }

  // ---------------------------------------------------------------- the invariant

  /** The record is the write at its own position in the history, or older than the history. */
  predicate Genuine(r: Record, h: History) {
    r.lsn <= h.End() && (h.base < r.lsn ==> h.edits[r.lsn - h.base - 1] == Edit(r.key, r.value))
  }

  /** The document is the fold of the history up to this position. */
  predicate Agrees(doc: Document, lsn: nat, h: History) {
    h.base <= lsn <= h.End() && doc.fields == FieldsAt(h, lsn)
  }

  /** The write after this position of the history was one the document had room for. */
  predicate EditFits(h: History, lsn: nat)
    requires h.base <= lsn < h.End()
  {
    var edit := h.edits[lsn - h.base];
    Put(FieldsAt(h, lsn), edit.key, edit.value).Ok?
  }

  predicate WritesFit(h: History) {
    forall lsn :: h.base <= lsn < h.End() ==> EditFits(h, lsn)
  }

  predicate PredOk(p: Pair) {
    && WritesFit(p.history)
    && p.pred.mem.lsn == p.history.End() && p.pred == SavedNow(p.pred.mem)
    && Agrees(p.pred.mem.doc, p.pred.mem.lsn, p.history) && Gapless(p.pred.mem.records, p.pred.mem.lsn)
    && forall r :: r in p.pred.mem.records ==> Genuine(r, p.history)
  }

  predicate SuccOk(p: Pair) {
    && Gapless(p.succ.mem.records, p.succ.mem.lsn)
    && p.succ.savedLsn <= p.succ.mem.lsn
    && (p.synced ==>
          Agrees(p.succ.mem.doc, p.succ.mem.lsn, p.history) && Agrees(p.succ.savedDoc, p.succ.savedLsn, p.history))
  }

  predicate MessagesOk(p: Pair) {
    && (forall s :: s in p.snapshots ==> Agrees(s.doc, s.lsn, p.history))
    && (forall r :: r in p.sent ==> Genuine(r, p.history))
  }

  predicate Inv(p: Pair) { PredOk(p) && SuccOk(p) && MessagesOk(p) }

  /** A predecessor that starts with any document, at any position and with any gapless log, and a successor that
      either starts with the same fields there or holds anything (and counts as synchronized only after its
      first snapshot). */
  predicate Initial(p: Pair) {
    && p.history == History(p.pred.mem.doc.fields, p.pred.mem.lsn, [])
    && p.pred == SavedNow(p.pred.mem) && p.succ == SavedNow(p.succ.mem)
    && Gapless(p.pred.mem.records, p.pred.mem.lsn) && Gapless(p.succ.mem.records, p.succ.mem.lsn)
    && (p.synced ==> p.succ.mem.doc.fields == p.pred.mem.doc.fields && p.succ.mem.lsn == p.pred.mem.lsn)
    && p.snapshots == {} && p.sent == {}
  }

  // ---------------------------------------------------------------- steps keep it

  lemma GenuineStays(r: Record, h: History, edit: Edit)
    requires Genuine(r, h)
    ensures Genuine(r, h.Then(edit))
  {
  }

  lemma HistoryGrows(p: Pair, edit: Edit)
    requires Inv(p)
    ensures var h := p.history.Then(edit);
            && (forall r :: r in p.sent ==> Genuine(r, h))
            && (forall s :: s in p.snapshots ==> Agrees(s.doc, s.lsn, h))
            && (p.synced ==> Agrees(p.succ.mem.doc, p.succ.mem.lsn, h) && Agrees(p.succ.savedDoc, p.succ.savedLsn, h))
  {
    var h := p.history;
    forall lsn | h.base <= lsn <= h.End() ensures FieldsAt(h.Then(edit), lsn) == FieldsAt(h, lsn) {
      FieldsStay(h, edit, lsn);
    }
    forall r | r in p.sent ensures Genuine(r, h.Then(edit)) { GenuineStays(r, h, edit); }
  }

  lemma LostWriteKeepsInv(p: Pair, e: Event, limit: nat)
    requires Inv(p) && e.WriteAt? && e.crash
    ensures Inv(WriteStep(p, e, limit))
  {
    var w := Write(p.pred.mem, e.key, e.value, e.epoch, e.generation, e.origin, limit);
    if w.Ok? {
      AppendGapless(p.pred.mem.records, RecordFor(p.pred.mem, e.key, e.value, e.epoch, e.generation, e.origin),
                    limit, p.pred.mem.lsn);
      AppendMembers(p.pred.mem.records, RecordFor(p.pred.mem, e.key, e.value, e.epoch, e.generation, e.origin), limit);
      CommittedIsGapless(w.value.records, p.pred.savedLsn);
    }
  }

  lemma FitsGrow(h: History, edit: Edit)
    requires WritesFit(h) && Put(FieldsAt(h, h.End()), edit.key, edit.value).Ok?
    ensures WritesFit(h.Then(edit))
  {
    forall lsn | h.base <= lsn < h.End() + 1 ensures EditFits(h.Then(edit), lsn) {
      FieldsStay(h, edit, lsn);
      if lsn < h.End() { assert EditFits(h, lsn); }
    }
  }

  lemma RecordsStayGenuine(records: seq<Record>, record: Record, limit: nat, h: History, edit: Edit)
    requires forall r :: r in records ==> Genuine(r, h)
    requires record.lsn == h.End() + 1 && edit == Edit(record.key, record.value)
    ensures forall r :: r in Append(records, record, limit) ==> Genuine(r, h.Then(edit))
  {
    AppendMembers(records, record, limit);
    forall r | r in Append(records, record, limit) ensures Genuine(r, h.Then(edit)) {
      if r != record { GenuineStays(r, h, edit); }
    }
  }

  lemma AgreesNext(doc: Document, h: History, edit: Edit)
    requires Agrees(doc, h.End(), h)
    ensures Agrees(doc.(fields := doc.fields[edit.key := edit.value]), h.End() + 1, h.Then(edit))
  {
    NextFields(h.Then(edit), h.End());
    FieldsStay(h, edit, h.End());
  }

  lemma WriteKeepsPred(p: Pair, e: Event, limit: nat)
    requires PredOk(p) && e.WriteAt? && !e.crash
    ensures PredOk(WriteStep(p, e, limit))
  {
    var w := Write(p.pred.mem, e.key, e.value, e.epoch, e.generation, e.origin, limit);
    if w.Ok? {
      var record := RecordFor(p.pred.mem, e.key, e.value, e.epoch, e.generation, e.origin);
      var edit := Edit(e.key, e.value);
      AppendGapless(p.pred.mem.records, record, limit, p.pred.mem.lsn);
      RecordsStayGenuine(p.pred.mem.records, record, limit, p.history, edit);
      AgreesNext(p.pred.mem.doc, p.history, edit);
      FitsGrow(p.history, edit);
    }
  }

  lemma WriteKeepsInv(p: Pair, e: Event, limit: nat)
    requires Inv(p) && e.WriteAt?
    ensures Inv(WriteStep(p, e, limit))
  {
    if e.crash {
      LostWriteKeepsInv(p, e, limit);
    } else {
      WriteKeepsPred(p, e, limit);
      HistoryGrows(p, Edit(e.key, e.value));
    }
  }

  /** Genuine records applied in order keep the successor on the history, however far the batch gets. */
  lemma {:induction false} ApplyBatchKeeps(mem: Replica, batch: seq<Record>, source: A.Incarnation, limit: nat,
                                           h: History,
                                       synced: bool)
    requires Gapless(mem.records, mem.lsn) && (synced ==> Agrees(mem.doc, mem.lsn, h))
    requires forall r :: r in batch ==> Genuine(r, h)
    ensures var r := ApplyBatch(mem, batch, source, limit).0;
            && Gapless(r.records, r.lsn) && mem.lsn <= r.lsn
            && (synced ==> Agrees(r.doc, r.lsn, h))
    decreases |batch|
  {
    if batch != [] {
      var one := ApplyOne(mem, batch[0], source, limit);
      if one.Ok? {
        assert Genuine(batch[0], h);
        AppendGapless(mem.records, batch[0], limit, mem.lsn);
        if synced { NextFields(h, mem.lsn); }
        ApplyBatchKeeps(one.value, batch[1..], source, limit, h, synced);
      }
    }
  }

  lemma ApplyKeepsInv(p: Pair, e: Event, limit: nat)
    requires Inv(p) && e.ApplyAt? && Enabled(p, e)
    ensures Inv(ApplyStep(p, e, limit))
  {
    var mem := ApplyBatch(p.succ.mem, e.batch, e.source, limit).0;
    ApplyBatchKeeps(p.succ.mem, e.batch, e.source, limit, p.history, p.synced);
    if e.crash { CommittedIsGapless(mem.records, p.succ.savedLsn); }
  }

  lemma RestartKeepsInv(p: Pair)
    requires Inv(p)
    ensures Inv(p.(pred := Reloaded(p.pred.savedDoc, p.pred.savedLsn, p.pred.mem.records)))
    ensures Inv(p.(succ := Reloaded(p.succ.savedDoc, p.succ.savedLsn, p.succ.mem.records)))
  {
    CommittedIsGapless(p.pred.mem.records, p.pred.savedLsn);
    CommittedIsGapless(p.succ.mem.records, p.succ.savedLsn);
  }

  lemma StepKeepsInv(p: Pair, e: Event, predLimit: nat, succLimit: nat)
    requires Inv(p) && Enabled(p, e)
    ensures Inv(Step(p, e, predLimit, succLimit))
  {
    match e
    case WriteAt(_, _, _, _, _, _) => WriteKeepsInv(p, e, predLimit);
    case ApplyAt(_, _, _) => ApplyKeepsInv(p, e, succLimit);
    case RestartPredecessor => RestartKeepsInv(p);
    case RestartSuccessor => RestartKeepsInv(p);
    case ReadAt(from, max) => ReadFromRecords(p.pred.mem.records, from, max);
    case _ =>
  }

  lemma {:induction false} RunKeepsInv(p: Pair, events: seq<Event>, predLimit: nat, succLimit: nat)
    requires Inv(p) && Legal(p, events, predLimit, succLimit)
    ensures Inv(RunOf(p, events, predLimit, succLimit))
    decreases |events|
  {
    if events != [] {
      StepKeepsInv(p, events[0], predLimit, succLimit);
      RunKeepsInv(Step(p, events[0], predLimit, succLimit), events[1..], predLimit, succLimit);
    }
  }

  /** In every run the predecessor's document is the fold of its whole write history; a synchronized
      successor's document is the fold of exactly the writes up to its position; and both record lists are
      gapless runs that end at their node's position, or empty. */
  lemma ReplicasFollowHistory(p: Pair, events: seq<Event>, predLimit: nat, succLimit: nat)
    requires Initial(p) && Legal(p, events, predLimit, succLimit)
    ensures var q := RunOf(p, events, predLimit, succLimit);
            && q.history.base == p.pred.mem.lsn && q.history.start == p.pred.mem.doc.fields
            && q.pred.mem.lsn == q.history.End() && q.pred.mem.doc.fields == FieldsAt(q.history, q.pred.mem.lsn)
            && (q.synced ==>
                  && q.history.base <= q.succ.savedLsn <= q.succ.mem.lsn <= q.history.End()
                  && q.succ.mem.doc.fields == FieldsAt(q.history, q.succ.mem.lsn)
                  && q.succ.savedDoc.fields == FieldsAt(q.history, q.succ.savedLsn))
            && Gapless(q.pred.mem.records, q.pred.mem.lsn) && Gapless(q.succ.mem.records, q.succ.mem.lsn)
  {
    InitialInv(p);
    RunKeepsInv(p, events, predLimit, succLimit);
    RunKeepsStart(p, events, predLimit, succLimit);
  }

  lemma InitialInv(p: Pair)
    requires Initial(p)
    ensures Inv(p)
  {
  }

  lemma {:induction false} RunKeepsStart(p: Pair, events: seq<Event>, predLimit: nat, succLimit: nat)
    ensures var q := RunOf(p, events, predLimit, succLimit);
            q.history.base == p.history.base && q.history.start == p.history.start
    decreases |events|
  {
    if events != [] { RunKeepsStart(Step(p, events[0], predLimit, succLimit), events[1..], predLimit, succLimit); }
  }
}
