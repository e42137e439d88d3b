/** The controller's final catch-up: with the predecessor fenced, its remaining records are moved to the successor
    in bounded rounds before authority is granted. */
module CatchUp {
  import opened Common
  import opened Documents
  import opened Replication
  import opened ControlPlaneNode
  import A = Authority
  import N = NodeAuthority

  function Min(a: nat, b: nat): nat { if a < b then a else b }

  // ---------------------------------------------------------------- one round, on values

  /** The log still holds every record after `from`. */
  predicate Covers(records: seq<Record>, lsn: nat, from: nat) {
    from <= lsn && lsn - from <= |records|
  }

  lemma {:induction false} ReadSkips(records: seq<Record>, lsn: nat, from: nat, limit: nat)
    requires Gapless(records, lsn) && Covers(records, lsn, from)
    ensures ReadSince(records, from, limit) == ReadSince(records[|records| - (lsn - from)..], from, limit)
    decreases |records|
  {
    var k := |records| - (lsn - from);
    if k == 0 {
      assert records[0..] == records;
    } else {
      assert records[0].lsn <= from;
      assert Gapless(records[1..], lsn);
      if limit > 0 { ReadSkips(records[1..], lsn, from, limit); }
      assert records[1..][k - 1..] == records[k..];
    }
  }

  lemma {:induction false} ReadMore(records: seq<Record>, lsn: nat, from: nat, limit: nat)
    requires Gapless(records, lsn) && |records| <= lsn - from && from <= lsn
    ensures ReadSince(records, from, limit) == records[..Min(limit, |records|)]
    decreases |records|
  {
    if records != [] && limit > 0 {
      assert records[0].lsn > from;
      assert Gapless(records[1..], lsn);
      ReadMore(records[1..], lsn, from, limit - 1);
      assert records[..Min(limit, |records|)] == [records[0]] + records[1..][..Min(limit - 1, |records| - 1)];
    }
  }

  /** A covered read returns exactly the next records, in order, as many as fit. */
  lemma ReadIsNextRecords(records: seq<Record>, lsn: nat, from: nat, limit: nat)
    requires Gapless(records, lsn) && Covers(records, lsn, from)
    ensures var batch := ReadSince(records, from, limit);
            && |batch| == Min(limit, lsn - from)
            && (forall i :: 0 <= i < |batch| ==> batch[i].lsn == from + 1 + i)
            && (forall x :: x in batch ==> x in records)
  {
    var k := |records| - (lsn - from);
    ReadSkips(records, lsn, from, limit);
    forall i | 0 <= i < |records[k..]| ensures records[k..][i] == records[k + i] {}
    assert Gapless(records[k..], lsn);
    ReadMore(records[k..], lsn, from, limit);
  }

  /** Consecutive genuine records from the right source all apply, and keep the successor on the history. */
  lemma {:induction false} NextRecordsApply(mem: Replica, batch: seq<Record>, source: A.Incarnation, limit: nat,
                                            history: History)
    requires Gapless(mem.records, mem.lsn) && Agrees(mem.doc, mem.lsn, history) && WritesFit(history)
    requires history.End() <= MAX_U64
    requires forall i :: 0 <= i < |batch| ==> batch[i].lsn == mem.lsn + 1 + i
    requires forall x :: x in batch ==> Genuine(x, history) && x.origin == source
    ensures var (r, status) := ApplyBatch(mem, batch, source, limit);
            && status.Ok? && r.lsn == mem.lsn + |batch|
            && Agrees(r.doc, r.lsn, history) && r.doc.schema == mem.doc.schema
    decreases |batch|
  {
    if batch != [] {
      assert batch[0] in batch && Genuine(batch[0], history);
      assert EditFits(history, mem.lsn);
      NextFields(history, mem.lsn);
      var one := ApplyOne(mem, batch[0], source, limit);
      AppendGapless(mem.records, batch[0], limit, mem.lsn);
      NextRecordsApply(one.value, batch[1..], source, limit, history);
    }
  }

  // ---------------------------------------------------------------- the loop

  /** The situation after fencing: the successor is on the predecessor's history, the predecessor's log covers
      the gap with records of the source the successor was prepared for, and one round fits both nodes. */
  ghost predicate Ready(source: Node, target: Node, handoff: nat, binding: SourceBinding, perRound: nat,
                        history: History)
    reads source, target
  {
    && source.Valid() && target.Valid()
    && source.lsn == history.End() <= MAX_U64 && Agrees(source.document, source.lsn, history) && WritesFit(history)
    && Agrees(target.document, target.lsn, history) && Covers(source.records, source.lsn, target.lsn)
    && (forall r :: r in source.records ==> Genuine(r, history) && (r.lsn > target.lsn ==> r.origin == binding.source))
    && target.expectedSource.Some? && target.expectedSource.value.handoff == handoff
    && Matches(binding, target.expectedSource.value)
    && target.expectedSource.value.source == binding.source
    && Min(perRound, source.maxRecordsPerResponse) <= target.maxRecordsPerResponse
  }

  /** One round: reads what the successor is missing and applies it. A ready pair stays ready, and the successor
      advances by exactly the records that fit. */
  method CatchUpRound(source: Node, target: Node, handoff: nat, binding: SourceBinding, perRound: nat,
                      ghost history: History)
    returns (status: Status, stop: bool)
    requires source != target && source.Valid() && target.Valid() && target.lsn < source.lsn
    modifies target`disk, target`trail, target`records, target`document, target`lsn
    ensures target.Valid()
    ensures source.records == [] ==> status.Ok? && stop && target.Mem() == old(target.Mem())
    ensures old(Ready(source, target, handoff, binding, perRound, history)) ==>
              && status.Ok? && Ready(source, target, handoff, binding, perRound, history)
              && target.lsn == old(target.lsn) +
                                 Min(Min(perRound, source.maxRecordsPerResponse), source.lsn - old(target.lsn))
              && target.document.schema == old(target.document.schema)
              && (stop ==> Min(perRound, source.maxRecordsPerResponse) == 0)
  {
    ghost var ready := Ready(source, target, handoff, binding, perRound, history);
    var entries, truncated := source.ReadRecordsSince(target.lsn, perRound);
    if ready { ReadIsNextRecords(source.records, source.lsn, target.lsn, Min(perRound, source.maxRecordsPerResponse)); }
    if entries == [] { return SUCCESS, true; }
    if ready { NextRecordsApply(target.Mem(), entries, binding.source, target.maxLogRecords, history); }
    status := target.ApplyRecords(handoff, binding, entries);
    stop := status.Err?;
  }

  /** Moves the remaining records in at most `maxRounds` rounds; the caller grants authority when this succeeds.
      When the pair is ready, the successor ends at the predecessor's position exactly when the gap is at most
      `maxRounds` rounds of records, and then holds the predecessor's fields. A log that was emptied ends
      the loop without moving anything. */
  method FinalCatchUp(source: Node, target: Node, handoff: nat, binding: SourceBinding, maxRounds: nat, perRound: nat,
                      ghost history: History) returns (status: Status)
    requires source != target && source.Valid() && target.Valid()
    modifies target`disk, target`trail, target`records, target`document, target`lsn
    ensures target.Valid()
    ensures source.records == [] ==> status.Ok? && target.Mem() == old(target.Mem())
    ensures old(Ready(source, target, handoff, binding, perRound, history)) ==>
              && status.Ok?
              && target.lsn == Min(source.lsn,
                                 old(target.lsn) + maxRounds * Min(perRound, source.maxRecordsPerResponse))
              && (target.lsn == source.lsn <==>
                  source.lsn - old(target.lsn) <= maxRounds * Min(perRound, source.maxRecordsPerResponse))
              && Agrees(target.document, target.lsn, history) && target.document.schema == old(target.document.schema)
              && (target.lsn == source.lsn ==> target.document.fields == source.document.fields)
              && (target.lsn == source.lsn && source.document.schema == target.document.schema ==>
                  target.document == source.document)
  {
    var sourceLsn := source.lsn;
    var rounds := 0;
    var stop := false;
    ghost var ready := Ready(source, target, handoff, binding, perRound, history);
    ghost var batch := Min(perRound, source.maxRecordsPerResponse);
    ghost var moved := 0;
    status := SUCCESS;
    while rounds < maxRounds && !stop
      invariant rounds <= maxRounds && status.Ok? && source.Valid() && target.Valid()
      invariant moved == rounds * batch
      invariant source.records == [] ==> target.Mem() == old(target.Mem())
      invariant ready ==> Ready(source, target, handoff, binding, perRound, history)
      invariant ready ==> target.lsn == Min(sourceLsn, old(target.lsn) + moved)
      invariant ready ==> target.document.schema == old(target.document.schema)
      invariant ready && stop ==> target.lsn == sourceLsn || batch == 0
      decreases maxRounds - rounds
    {
      RoundsMonotone(rounds, maxRounds, batch);
      rounds := rounds + 1;
      moved := moved + batch;
      if target.lsn >= sourceLsn { stop := true; continue; }
      status, stop := CatchUpRound(source, target, handoff, binding, perRound, history);
      if status.Err? { return; }
    }
    RoundsBounded(rounds, maxRounds, batch);
  }

  /** The whole transfer: the final catch-up, then the delivery of the lease the registry granted. A successor that
      takes over from a ready pair accepts writes with exactly the writes of the history up to its position
      in its document and on its disk; it lacks none of the fenced predecessor's exactly when the gap was at
      most `maxRounds` rounds of records. */
  method TransferAuthority(
    source: Node, target: Node, handoff: nat, binding: SourceBinding, maxRounds: nat, perRound: nat,
    lease: A.Lease, ttl: nat, now: nat, ghost history: History) returns (status: Status)
    requires source != target && source.Valid() && target.Valid()
    modifies target`disk, target`trail, target`records, target`document, target`lsn, target`auth
    ensures target.Valid() && (target.auth == old(target.auth) || status.Ok?)
    ensures status.Ok? ==>
              && target.auth.lease.Some? && target.auth.lease.value.token == lease.token
              && (N.Accepts(target.auth, now) <==> now < AddU64(now, ttl))
              && target.disk.state == Some(target.Unsaved())
    ensures old(Ready(source, target, handoff, binding, perRound, history)) ==>
              && (status.Ok? <==> N.GrantNode(old(target.auth), lease.shard, lease.epoch, lease.generation, lease.token,
                                             A.Mutating, ttl, now).1.Ok?)
              && Agrees(target.document, target.lsn, history) && target.document.schema == old(target.document.schema)
              && (target.lsn == source.lsn <==>
                  source.lsn - old(target.lsn) <= maxRounds * Min(perRound, source.maxRecordsPerResponse))
              && (target.lsn == source.lsn ==> target.document.fields == source.document.fields)
  {
    status := FinalCatchUp(source, target, handoff, binding, maxRounds, perRound, history);
    if status.Err? { return; }
    status := target.GrantAuthority(lease.shard, lease.epoch, lease.generation, lease.token, A.Mutating, ttl, now);
  }

  lemma RoundsBounded(rounds: nat, maxRounds: nat, batch: nat)
    requires rounds <= maxRounds
    ensures rounds * batch <= maxRounds * batch
    ensures batch == 0 ==> maxRounds * batch == 0
  {
  }

  lemma RoundsMonotone(rounds: nat, maxRounds: nat, batch: nat)
    requires rounds < maxRounds
    ensures rounds * batch + batch == (rounds + 1) * batch <= maxRounds * batch
  {
  }

  /** Records that no longer reach back to the successor's position are refused, and nothing is applied. */
  lemma UncoveredGapRefused(records: seq<Record>, lsn: nat, mem: Replica, source: A.Incarnation, max: nat, limit: nat)
    requires Gapless(records, lsn) && records != [] && max > 0 && mem.lsn + 1 < records[0].lsn
    requires records[0].origin == source
    ensures ApplyBatch(mem, ReadSince(records, mem.lsn, max), source, limit) == (mem, Err(NotReady))
  {
    assert ReadSince(records, mem.lsn, max)[0] == records[0];
  }
}
