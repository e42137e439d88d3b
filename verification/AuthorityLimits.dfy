/** Where the registry's guarantees end: exactly which grants make a second clock reading or the bounded history
    matter, and a run that reaches a forgotten slot. */
module AuthorityLimits {
  import opened Common
  import opened Authority
  import opened AuthorityRuns

  // ---------------------------------------------------------------- the second clock reading

  /** A live mutating lease that runs out between two clock readings and stays on record. */
  predicate LapsesBetween(leases: seq<Lease>, i: nat, now: nat, slotNow: nat)
    requires i < |leases|
  {
    Busy(leases[i]) && now < leases[i].expiresAt <= slotNow && (i > 0 || |leases| < MAX_LEASE_HISTORY)
  }

  /** Nothing stops a mutating grant but an occupied slot. */
  predicate MayMutate(s: ShardAuthority, req: GrantRequest) {
    req.mode.Mutating? && CheckRequest(req).Ok? && s.generation < MAX_U64 && s.nextLeaseId < MAX_U64
  }

  lemma TwoReadingsGrant(s: ShardAuthority, req: GrantRequest, now: nat, slotNow: nat, token: nat)
    requires MayMutate(s, req) && |s.leases| <= MAX_LEASE_HISTORY
    requires forall i :: 0 <= i < |s.leases| ==> !Blocks(ExpireAll(s.leases, now)[i], slotNow)
    ensures var t := Grant(s, req, now, slotNow, token).0;
            && |t.leases| > 0 && Busy(t.leases[|t.leases| - 1])
            && Appended(ExpireAll(s.leases, now), t.leases[|t.leases| - 1], t.leases,
                        if |s.leases| == MAX_LEASE_HISTORY then 1 else 0)
  {
    var e := ExpireAll(s.leases, now);
    IndexWhereUnique(e, (l: Lease) => Blocks(l, slotNow), |e|);
    BoundedIsAppended(e, NewLease(s.(leases := e, generation := s.generation + 1), req, now, token));
  }

  lemma FreeSecondReading(s: ShardAuthority, req: GrantRequest, now: nat, slotNow: nat, token: nat)
    requires MayMutate(s, req) && |s.leases| <= MAX_LEASE_HISTORY
    requires forall i :: 0 <= i < |s.leases| ==> !Blocks(ExpireAll(s.leases, now)[i], slotNow)
    ensures SingleSlot(Grant(s, req, now, slotNow, token).0.leases) <==>
            !exists i :: 0 <= i < |s.leases| && LapsesBetween(s.leases, i, now, slotNow)
  {
    var t := Grant(s, req, now, slotNow, token).0.leases;
    var e := ExpireAll(s.leases, now);
    var d := if |s.leases| == MAX_LEASE_HISTORY then 1 else 0;
    TwoReadingsGrant(s, req, now, slotNow, token);
    if i :| 0 <= i < |s.leases| && LapsesBetween(s.leases, i, now, slotNow) {
      assert t[i - d] == e[i] && Busy(e[i]);
    } else {
      forall j | 0 <= j < |t| - 1 ensures !Busy(t[j]) {
        assert t[j] == e[j + d] && !Blocks(e[j + d], slotNow) && !LapsesBetween(s.leases, j + d, now, slotNow);
      }
    }
  }

  /** A grant that is not such a mutating grant, or whose second reading finds the slot occupied, leaves it single. */
  lemma OtherwiseSingle(s: ShardAuthority, req: GrantRequest, now: nat, slotNow: nat, token: nat)
    requires SingleSlot(s.leases) && |s.leases| <= MAX_LEASE_HISTORY
    requires !MayMutate(s, req)
          || exists i :: 0 <= i < |s.leases| && Blocks(ExpireAll(s.leases, now)[i], slotNow)
    ensures SingleSlot(Grant(s, req, now, slotNow, token).0.leases)
  {
    var t := Grant(s, req, now, slotNow, token).0;
    var e := ExpireAll(s.leases, now);
    GrantEvolves(s, req, now, slotNow, token);
    if t.nextLeaseId == s.nextLeaseId {
      forall i | 0 <= i < |s.leases| && Busy(t.leases[i]) ensures Busy(s.leases[i]) {
        assert Evolves(s.leases[i], t.leases[i]);
      }
    } else {
      assert SingleSlot(e) by {
        forall i | 0 <= i < |e| && Busy(e[i]) ensures Busy(s.leases[i]) {}
      }
      var lease := NewLease(t.(nextLeaseId := s.nextLeaseId), req, now, token);
      BoundedIsAppended(e, lease);
      AppendKeepsSlot(e, lease, t.leases, if |e| == MAX_LEASE_HISTORY then 1 else 0);
    }
  }

  lemma NothingLapses(s: ShardAuthority, k: nat, now: nat, slotNow: nat)
    requires SingleSlot(s.leases) && k < |s.leases| && Blocks(ExpireAll(s.leases, now)[k], slotNow)
    ensures forall i :: 0 <= i < |s.leases| ==> !LapsesBetween(s.leases, i, now, slotNow)
  {
    assert Busy(s.leases[k]) && slotNow < s.leases[k].expiresAt;
    forall i | 0 <= i < |s.leases| ensures !LapsesBetween(s.leases, i, now, slotNow) {
      assert i != k ==> !Busy(s.leases[i]);
    }
  }

  /** With a second clock reading a grant leaves two leases stored as live exactly when nothing but the slot stops a
      mutating grant and the slot's lease runs out between the two readings without being dropped from the record. */
  lemma SecondClockReadingExact(s: ShardAuthority, req: GrantRequest, now: nat, slotNow: nat, token: nat)
    requires WellFormed(s)
    ensures SingleSlot(Grant(s, req, now, slotNow, token).0.leases) <==>
            !(MayMutate(s, req) && exists i :: 0 <= i < |s.leases| && LapsesBetween(s.leases, i, now, slotNow))
  {
    var e := ExpireAll(s.leases, now);
    if MayMutate(s, req) && forall i :: 0 <= i < |s.leases| ==> !Blocks(e[i], slotNow) {
      FreeSecondReading(s, req, now, slotNow, token);
    } else {
      OtherwiseSingle(s, req, now, slotNow, token);
      if k :| MayMutate(s, req) && 0 <= k < |s.leases| && Blocks(e[k], slotNow) {
        NothingLapses(s, k, now, slotNow);
      }
    }
  }

  // ---------------------------------------------------------------- the bounded history

  /** A grant makes the record forget a live mutating lease exactly when the lease is the oldest of a full
      history and the grant creates a lease of another mode. */
  lemma GrantForgetsSlotExact(s: ShardAuthority, req: GrantRequest, now: nat, token: nat, i: nat)
    requires WellFormed(s) && i < |s.leases| && Blocks(s.leases[i], now)
    ensures FirstWithId(Grant(s, req, now, now, token).0.leases, s.leases[i].id)
              == |Grant(s, req, now, now, token).0.leases| <==>
            i == 0 && |s.leases| == MAX_LEASE_HISTORY && !req.mode.Mutating? && CreatesLease(s, req, now)
  {
    var t := Grant(s, req, now, now, token).0;
    var e := ExpireAll(s.leases, now);
    CreatesExactly(s, req, now, token);
    if !CreatesLease(s, req, now) {
      GrantEvolves(s, req, now, now, token);
      assert Evolves(s.leases[i], t.leases[i]);
    } else {
      CreatedAppends(s, req, now, token);
      ForgottenExactly(s, t, now, i);
    }
  }

  /** Appending drops an entry exactly when it is the first of a full history. */
  lemma ForgottenExactly(s: ShardAuthority, t: ShardAuthority, now: nat, i: nat)
    requires IdsOrdered(s.leases, s.nextLeaseId) && i < |s.leases| && |s.leases| <= MAX_LEASE_HISTORY && |t.leases| > 0
    requires t.leases[|t.leases| - 1].id == s.nextLeaseId
    requires Appended(ExpireAll(s.leases, now), t.leases[|t.leases| - 1], t.leases,
                      if |s.leases| == MAX_LEASE_HISTORY then 1 else 0)
    ensures FirstWithId(t.leases, s.leases[i].id) == |t.leases| <==> i == 0 && |s.leases| == MAX_LEASE_HISTORY
  {
    var e := ExpireAll(s.leases, now);
    var d := if |s.leases| == MAX_LEASE_HISTORY then 1 else 0;
    if i >= d {
      assert t.leases[i - d] == e[i] && e[i].id == s.leases[i].id;
    } else {
      forall j | 0 <= j < |t.leases| ensures t.leases[j].id != s.leases[i].id {
        if j < |t.leases| - 1 { assert t.leases[j] == e[j + d] && e[j + d].id == s.leases[j + d].id; }
      }
    }
  }

  // ---------------------------------------------------------------- a run that reaches a forgotten slot

  lemma {:induction false} RunAppended(s: ShardAuthority, ops: seq<Op>, op: Op)
    ensures Run(s, ops + [op]) == Apply(Run(s, ops), op)
    decreases |ops|
  {
    if ops == [] {
      assert ([] + [op])[1..] == [];
    } else {
      assert (ops + [op])[1..] == ops[1..] + [op];
      RunAppended(Apply(s, ops[0]), ops[1..], op);
    }
  }

  /** A read-only grant that lasts one tick. */
  function Brief(reader: Incarnation, now: nat, token: nat): Op {
    GrantOp(GrantRequest(reader, ReadOnlyShared, 1), now, token)
  }

  /** One long mutating grant, then n brief read-only grants, each after the last one ran out. */
  function Crowding(writer: Incarnation, reader: Incarnation, token: nat, n: nat): seq<Op> {
    if n == 0 then [GrantOp(GrantRequest(writer, Mutating, MAX_LEASE_TTL_MS), 0, token)]
    else Crowding(writer, reader, token, n - 1) + [Brief(reader, n, token)]
  }

  /** The record after those: the writer's live lease first, then n read-only ones that are over at n + 1. */
  predicate Crowded(s: ShardAuthority, writer: Incarnation, n: nat) {
    && |s.leases| == n + 1 && s.nextLeaseId == n + 2 && s.generation == 2
    && s.leases[0].holder == writer && Busy(s.leases[0]) && s.leases[0].state.Active?
    && s.leases[0].expiresAt == MAX_LEASE_TTL_MS && s.leases[0].id == 1
    && forall i :: 1 <= i <= n ==>
         s.leases[i].mode.ReadOnlyShared? && s.leases[i].expiresAt <= n + 1 && s.leases[i].id > 1
  }

  lemma {:induction false} NothingActive(leases: seq<Lease>, now: nat)
    requires forall i :: 0 <= i < |leases| && leases[i].mode.ReadOnlyShared? ==> leases[i].expiresAt <= now
    ensures CountActiveReadOnly(leases, now) == 0
  {
    if leases != [] { NothingActive(leases[..|leases| - 1], now); }
  }

  lemma BriefCreates(s: ShardAuthority, writer: Incarnation, reader: Incarnation, n: nat)
    requires Crowded(s, writer, n) && reader.Valid() && n < MAX_LEASE_HISTORY
    ensures CreatesLease(s, GrantRequest(reader, ReadOnlyShared, 1), n + 1)
  {
    NothingActive(s.leases, n + 1);
  }

  /** The next brief grant adds a read-only lease, dropping the first entry once the history is full. */
  lemma BriefAdds(s: ShardAuthority, writer: Incarnation, reader: Incarnation, token: nat, n: nat)
    requires Crowded(s, writer, n) && reader.Valid() && n < MAX_LEASE_HISTORY
    ensures var t := Apply(s, Brief(reader, n + 1, token));
            && |t.leases| > 0 && t.nextLeaseId == n + 3 && t.generation == 2
            && var last := t.leases[|t.leases| - 1];
            && last.mode.ReadOnlyShared? && last.expiresAt == n + 2 && last.id == n + 2
            && Appended(ExpireAll(s.leases, n + 1), last, t.leases, if n + 1 == MAX_LEASE_HISTORY then 1 else 0)
  {
    BriefCreates(s, writer, reader, n);
    CreatedAppends(s, GrantRequest(reader, ReadOnlyShared, 1), n + 1, token);
  }

  lemma CrowdedGrows(s: ShardAuthority, writer: Incarnation, reader: Incarnation, token: nat, n: nat)
    requires Crowded(s, writer, n) && reader.Valid() && n + 1 < MAX_LEASE_HISTORY
    ensures Crowded(Apply(s, Brief(reader, n + 1, token)), writer, n + 1)
  {
    BriefAdds(s, writer, reader, token, n);
    var t := Apply(s, Brief(reader, n + 1, token));
    var e := ExpireAll(s.leases, n + 1);
    assert t.leases[0] == e[0];
    forall i | 1 <= i <= n ensures t.leases[i] == e[i] {}
  }

  lemma {:induction false} CrowdingCrowds(
      shard: string, epoch: nat, writer: Incarnation, reader: Incarnation, token: nat, n: nat)
    requires Establish(shard, epoch).Ok? && writer.Valid() && reader.Valid() && n < MAX_LEASE_HISTORY
    ensures Crowded(Run(Establish(shard, epoch).value, Crowding(writer, reader, token, n)), writer, n)
  {
    var s := Establish(shard, epoch).value;
    if n == 0 {
      var op := GrantOp(GrantRequest(writer, Mutating, MAX_LEASE_TTL_MS), 0, token);
      RunAppended(s, [], op);
      assert [] + [op] == [op];
      CreatesExactly(s, op.req, 0, token);
      assert ExpireAll(s.leases, 0) == [];
    } else {
      CrowdingCrowds(shard, epoch, writer, reader, token, n - 1);
      RunAppended(s, Crowding(writer, reader, token, n - 1), Brief(reader, n, token));
      CrowdedGrows(Run(s, Crowding(writer, reader, token, n - 1)), writer, reader, token, n - 1);
    }
  }

  /** A mutating grant on a record without a live mutating lease succeeds. */
  lemma FreeSlotGrants(s: ShardAuthority, req: GrantRequest, now: nat, token: nat)
    requires MayMutate(s, req) && forall i :: 0 <= i < |s.leases| ==> !Busy(s.leases[i])
    ensures Grant(s, req, now, now, token).1.Ok?
  {
    var e := ExpireAll(s.leases, now);
    IndexWhereUnique(e, (l: Lease) => Blocks(l, now), |e|);
  }

  /** Every shard reaches a forgotten slot: after one long mutating grant and 255 brief read-only ones, the next
      read-only grant drops the writer's unexpired lease from the record, and another holder is granted the slot. */
  lemma ForgottenSlotIsReachable(
      shard: string, epoch: nat, writer: Incarnation, reader: Incarnation, other: Incarnation, token: nat)
    requires Establish(shard, epoch).Ok? && writer.Valid() && reader.Valid() && other.Valid()
    ensures var s := Run(Establish(shard, epoch).value, Crowding(writer, reader, token, MAX_LEASE_HISTORY - 1));
            var t := Apply(s, Brief(reader, MAX_LEASE_HISTORY, token));
            && |s.leases| > 0 && s.leases[0].holder == writer && Blocks(s.leases[0], MAX_LEASE_HISTORY)
            && FirstWithId(t.leases, s.leases[0].id) == |t.leases|
            && Grant(t, GrantRequest(other, Mutating, 1), MAX_LEASE_HISTORY, MAX_LEASE_HISTORY, token).1.Ok?
  {
    var n, now := MAX_LEASE_HISTORY - 1, MAX_LEASE_HISTORY;
    var s := Run(Establish(shard, epoch).value, Crowding(writer, reader, token, n));
    CrowdingCrowds(shard, epoch, writer, reader, token, n);
    LastReaderForgets(s, writer, reader, other, token);
  }

  lemma LastReaderForgets(s: ShardAuthority, writer: Incarnation, reader: Incarnation, other: Incarnation, token: nat)
    requires Crowded(s, writer, MAX_LEASE_HISTORY - 1) && reader.Valid() && other.Valid()
    ensures var t := Apply(s, Brief(reader, MAX_LEASE_HISTORY, token));
            && Blocks(s.leases[0], MAX_LEASE_HISTORY) && FirstWithId(t.leases, s.leases[0].id) == |t.leases|
            && Grant(t, GrantRequest(other, Mutating, 1), MAX_LEASE_HISTORY, MAX_LEASE_HISTORY, token).1.Ok?
  {
    var t := Apply(s, Brief(reader, MAX_LEASE_HISTORY, token));
    var e := ExpireAll(s.leases, MAX_LEASE_HISTORY);
    BriefAdds(s, writer, reader, token, MAX_LEASE_HISTORY - 1);
    forall j | 0 <= j < |t.leases| ensures !t.leases[j].mode.Mutating? && t.leases[j].id > 1 {
      if j < |t.leases| - 1 { assert t.leases[j] == e[j + 1]; }
    }
    FreeSlotGrants(t, GrantRequest(other, Mutating, 1), MAX_LEASE_HISTORY, token);
  }
}
