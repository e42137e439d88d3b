/** What the steps of replication achieve, and not only keep: a snapshot synchronizes the successor, a batch moves it by
    what fits, a crash falls back to what was saved, and a save keeps what was applied. */
module ReplicationProgress {
  import opened Common
  import opened Documents
  import opened Replication
  import opened CatchUp
  import A = Authority

  /** Taking a snapshot and installing it are always possible, and leave the successor, in memory and on disk, at the
      predecessor's document and position; the predecessor goes on as it was. */
  lemma SnapshotSynchronizes(p: Pair, predLimit: nat, succLimit: nat)
    ensures var snapshot := Snapshot(p.pred.mem.lsn, p.pred.mem.doc);
            var a := Step(p, TakeSnapshot, predLimit, succLimit);
            && Enabled(a, InstallAt(snapshot, false))
            && var b := Step(a, InstallAt(snapshot, false), predLimit, succLimit);
            && b.synced && b.pred == p.pred && b.history == p.history
            && b.succ.mem == Replica(p.pred.mem.doc, p.pred.mem.lsn, [])
            && b.succ.savedDoc == p.pred.mem.doc && b.succ.savedLsn == p.pred.mem.lsn
  {
  }

  /** An accepted write moves the predecessor by one position, in memory and on disk, and is the next of the history. */
  lemma WriteAdvances(p: Pair, e: Event, predLimit: nat, succLimit: nat)
    requires e.WriteAt? && !e.crash && p.pred.mem.lsn < MAX_U64 && Put(p.pred.mem.doc.fields, e.key, e.value).Ok?
    ensures var q := Step(p, e, predLimit, succLimit);
            && q.history == p.history.Then(Edit(e.key, e.value)) && q.succ == p.succ
            && q.pred.mem.lsn == q.pred.savedLsn == p.pred.mem.lsn + 1
            && q.pred.mem.doc == q.pred.savedDoc == p.pred.mem.doc.(fields := p.pred.mem.doc.fields[e.key := e.value])
  {
  }

  /** The records the successor lacks, as many as a read returns. */
  function Missing(p: Pair, max: nat): seq<Record> { ReadSince(p.pred.mem.records, p.succ.mem.lsn, max) }

  /** What applying them to the successor's copy yields. */
  lemma MissingApply(p: Pair, max: nat, source: A.Incarnation, limit: nat)
    requires Inv(p) && p.synced && Covers(p.pred.mem.records, p.pred.mem.lsn, p.succ.mem.lsn)
    requires p.history.End() <= MAX_U64
    requires forall r :: r in p.pred.mem.records && r.lsn > p.succ.mem.lsn ==> r.origin == source
    ensures var (mem, status) := ApplyBatch(p.succ.mem, Missing(p, max), source, limit);
            && status.Ok? && mem.lsn == p.succ.mem.lsn + Min(max, p.pred.mem.lsn - p.succ.mem.lsn)
            && Agrees(mem.doc, mem.lsn, p.history)
  {
    var batch := Missing(p, max);
    ReadIsNextRecords(p.pred.mem.records, p.pred.mem.lsn, p.succ.mem.lsn, max);
    forall x | x in batch ensures Genuine(x, p.history) && x.origin == source {
      var i :| 0 <= i < |batch| && batch[i] == x;
    }
    NextRecordsApply(p.succ.mem, batch, source, limit, p.history);
  }

  /** A synchronized successor whose gap the predecessor's log still covers: reading and applying what it lacks are
      possible and move it, in memory and on disk, by exactly what fits; with room for the whole gap it then holds the
      predecessor's fields. */
  lemma BatchAdvances(p: Pair, max: nat, source: A.Incarnation, predLimit: nat, succLimit: nat, a: Pair, b: Pair)
    requires Inv(p) && p.synced && Covers(p.pred.mem.records, p.pred.mem.lsn, p.succ.mem.lsn)
    requires p.history.End() <= MAX_U64
    requires forall r :: r in p.pred.mem.records && r.lsn > p.succ.mem.lsn ==> r.origin == source
    requires a == Step(p, ReadAt(p.succ.mem.lsn, max), predLimit, succLimit)
    requires b == Step(a, ApplyAt(Missing(p, max), source, false), predLimit, succLimit)
    ensures Enabled(a, ApplyAt(Missing(p, max), source, false)) && b.pred == p.pred && b.history == p.history
    ensures b.succ.mem.lsn == b.succ.savedLsn == p.succ.mem.lsn + Min(max, p.pred.mem.lsn - p.succ.mem.lsn)
    ensures b.succ.savedDoc == b.succ.mem.doc
    ensures p.pred.mem.lsn - p.succ.mem.lsn <= max ==> b.succ.mem.doc.fields == p.pred.mem.doc.fields
  {
    MissingApply(p, max, source, succLimit);
  }

  /** A crash anywhere takes the node it happens on back to what its state file holds, and leaves the other alone. */
  lemma CrashFallsBack(p: Pair, e: Event, predLimit: nat, succLimit: nat)
    requires (e.WriteAt? || e.InstallAt? || e.ApplyAt?) && e.crash
    requires e.WriteAt? ==> p.pred.mem.lsn < MAX_U64 && Put(p.pred.mem.doc.fields, e.key, e.value).Ok?
    ensures var q := Step(p, e, predLimit, succLimit);
            && q.history == p.history && q.synced == p.synced
            && (if e.WriteAt? then FellBack(p.pred, q.pred) && q.succ == p.succ
                else FellBack(p.succ, q.succ) && q.pred == p.pred)
  {
    if e.WriteAt? {
      var w := Write(p.pred.mem, e.key, e.value, e.epoch, e.generation, e.origin, predLimit);
      ReloadFallsBack(p.pred, w.value.records);
    } else if e.InstallAt? {
      ReloadFallsBack(p.succ, []);
    } else {
      ReloadFallsBack(p.succ, ApplyBatch(p.succ.mem, e.batch, e.source, succLimit).0.records);
    }
  }

  /** Back at the saved document and position, with only committed records. */
  predicate FellBack(before: Side, after: Side) {
    && after.savedDoc == before.savedDoc && after.savedLsn == before.savedLsn
    && after.mem.doc == before.savedDoc && after.mem.lsn == before.savedLsn
    && forall r :: r in after.mem.records ==> r.lsn <= before.savedLsn
  }

  lemma ReloadFallsBack(side: Side, log: seq<Record>)
    ensures FellBack(side, Reloaded(side.savedDoc, side.savedLsn, log))
  {
    OnlyCommitted(log, side.savedLsn);
  }

  lemma {:induction false} OnlyCommitted(log: seq<Record>, lsn: nat)
    ensures forall r :: r in Committed(log, lsn) ==> r.lsn <= lsn && r in log
  {
    if log != [] { OnlyCommitted(log[..|log| - 1], lsn); }
  }

  /** So does a restart; a save keeps what is in memory. */
  lemma RestartFallsBack(p: Pair, predLimit: nat, succLimit: nat)
    ensures FellBack(p.pred, Step(p, RestartPredecessor, predLimit, succLimit).pred)
    ensures FellBack(p.succ, Step(p, RestartSuccessor, predLimit, succLimit).succ)
    ensures var q := Step(p, SaveSuccessor, predLimit, succLimit);
            q.succ.mem == p.succ.mem && q.succ.savedDoc == p.succ.mem.doc && q.succ.savedLsn == p.succ.mem.lsn
  {
    ReloadFallsBack(p.pred, p.pred.mem.records);
    ReloadFallsBack(p.succ, p.succ.mem.records);
  }
}
