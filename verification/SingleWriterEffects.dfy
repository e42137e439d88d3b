/** What the controller's steps achieve, and not only keep: a replaced holder's lease is revoked and its slot freed, a
    transfer ends with the successor accepting, and a controller restart is healed by a re-attestation. */
module SingleWriterEffects {
  import opened Common
  import opened Authority
  import opened NodeAuthority
  import opened SingleWriter
  import R = AuthorityRuns
  import E = AuthorityEffects

  // ---------------------------------------------------------------- acknowledging for a holder that is gone

  /** A fence as it is once everything waiting for `holder` was acknowledged at `now`. */
  function Settled(f: Fence, holder: Incarnation, now: nat): Fence {
    if f.target == holder && !f.acknowledged then f.(acknowledged := true, acknowledgedAt := now) else f
  }

  /** The first `m` fences are settled, the others as they were, and leases were at most fenced off. */
  predicate SettledUpTo(s: ShardAuthority, a: ShardAuthority, holder: Incarnation, now: nat, m: nat) {
    && a == s.(leases := a.leases, fences := a.fences)
    && |a.fences| == |s.fences| && |a.leases| == |s.leases|
    && (forall k :: 0 <= k < |s.fences| ==>
          a.fences[k] == if k < m then Settled(s.fences[k], holder, now) else s.fences[k])
    && forall j :: 0 <= j < |s.leases| ==>
         a.leases[j] == s.leases[j] || (s.leases[j].state.Fencing? && a.leases[j] == s.leases[j].(state := Fenced))
  }

  lemma {:induction false} AllAcknowledged(s: ShardAuthority, a: ShardAuthority, holder: Incarnation, now: nat, m: nat)
    requires R.FencesOk(s) && m <= |s.fences| && SettledUpTo(s, a, holder, now, m)
    ensures SettledUpTo(s, AcknowledgeAll(a, s.fences[m..], holder, now), holder, now, |s.fences|)
    decreases |s.fences| - m
  {
    if m < |s.fences| {
      assert s.fences[m..][1..] == s.fences[m + 1..];
      var b := if Outstanding(s.fences[m], holder) then AcknowledgeFence(a, holder, s.fences[m].id, now).0 else a;
      if Outstanding(s.fences[m], holder) { OneAcknowledged(s, a, holder, now, m); }
      AllAcknowledged(s, b, holder, now, m + 1);
    }
  }

  lemma OneAcknowledged(s: ShardAuthority, a: ShardAuthority, holder: Incarnation, now: nat, m: nat)
    requires R.FencesOk(s) && m < |s.fences| && SettledUpTo(s, a, holder, now, m) && Outstanding(s.fences[m], holder)
    ensures SettledUpTo(s, AcknowledgeFence(a, holder, s.fences[m].id, now).0, holder, now, m + 1)
  {
    assert forall k :: 0 <= k < m ==> a.fences[k].id == s.fences[k].id;
    E.AcknowledgeExactly(a, holder, s.fences[m].id, now, m);
  }

  // ---------------------------------------------------------------- a replaced holder

  /** The lease of the slot is entry `i` of the record. */
  lemma SlotEntry(s: ShardAuthority, now: nat) returns (i: nat)
    requires R.SingleSlot(s.leases) && ViewOf(s, now).slotHolder.Some?
    ensures i < |s.leases| && Blocks(s.leases[i], now) && ViewOf(s, now).slotHolder == Some(s.leases[i])
  {
    R.ViewReportsSlot(s, now);
    if forall j :: 0 <= j < |s.leases| ==> !Blocks(s.leases[j], now) { assert false; }
    i :| 0 <= i < |s.leases| && Blocks(s.leases[i], now);
  }

  /** The record's part of it, for entry `i` of the slot. */
  lemma SettledAndRevoked(s: ShardAuthority, a: ShardAuthority, i: nat, now: nat)
    requires R.WellFormed(s) && i < |s.leases| && R.Busy(s.leases[i])
    requires SettledUpTo(s, a, s.leases[i].holder, now, |s.fences|)
    ensures Revoke(a, s.leases[i].id).0 == a.(leases := s.leases[i := s.leases[i].(state := Revoked)])
  {
    forall j | 0 <= j < |a.leases| && j != i ensures a.leases[j] == s.leases[j] {
      assert !R.Busy(s.leases[j]) && R.LeaseOk(s.leases[j], s);
    }
    forall j | 0 <= j < |a.leases| ensures a.leases[j].id == s.leases[j].id {}
    E.RevokeExactly(a, s.leases[i].id, i);
  }

  /** Revoking the lease of a replaced holder: that lease is on record as Revoked and every other lease is unchanged;
      every fence that waited for the holder is acknowledged and all others are untouched. */
  lemma ReplacedHolderRevoked(s: State, who: Who) returns (i: nat)
    requires Inv(s) && Enabled(s, RevokeReplaced(who))
    ensures i < |s.registry.leases| && ViewOf(s.registry, s.now).slotHolder == Some(s.registry.leases[i])
    ensures Blocks(s.registry.leases[i], s.now)
    ensures var t := Step(s, RevokeReplaced(who));
            && t == s.(registry := s.registry.(leases := t.registry.leases, fences := t.registry.fences))
            && t.registry.leases == s.registry.leases[i := s.registry.leases[i].(state := Revoked)]
            && |t.registry.fences| == |s.registry.fences|
            && forall k :: 0 <= k < |s.registry.fences| ==>
                 t.registry.fences[k] == Settled(s.registry.fences[k], s.registry.leases[i].holder, s.now)
  {
    i := SlotEntry(s.registry, s.now);
    var slot := s.registry.leases[i];
    var a := AcknowledgeAll(s.registry, s.registry.fences, slot.holder, s.now);
    assert s.registry.fences[0..] == s.registry.fences;
    AllAcknowledged(s.registry, s.registry, slot.holder, s.now, 0);
    SettledAndRevoked(s.registry, a, i, s.now);
  }

  /** The slot is then free, no fence waits for the holder that is gone, and the incarnation that was reported is
      granted a new lease while the counters last. */
  lemma ReplacedHolderFreesSlot(s: State, who: Who)
    requires Inv(s) && Enabled(s, RevokeReplaced(who))
    ensures var t := Step(s, RevokeReplaced(who));
            var gone := ViewOf(s.registry, s.now).slotHolder.value.holder;
            && (forall l :: l in t.registry.leases ==> !R.Busy(l))
            && ViewOf(t.registry, t.now).slotHolder == None
            && (forall f :: f in t.registry.fences && f.target == gone ==> f.acknowledged)
            && (s.registry.generation < MAX_U64 && s.registry.nextLeaseId < MAX_U64 ==>
                  R.CreatesLease(t.registry, Request(t, ReportAt(s, who).value.incarnation), t.now))
  {
    var i := ReplacedHolderRevoked(s, who);
    var t := Step(s, RevokeReplaced(who));
    NodeAndReport(s, who);
    forall j | 0 <= j < |t.registry.leases| ensures !R.Busy(t.registry.leases[j]) {
      if j != i { assert !R.Busy(s.registry.leases[j]); }
    }
    R.ViewReportsSlot(t.registry, t.now);
  }

  /** So a restarted node is back in service: once it was reported, revoking the lease of its predecessor and granting
      it a new one are legal steps that leave it accepting writes. */
  lemma RecoveryCompletes(s: State, who: Who, token: nat)
    requires Inv(s) && Enabled(s, RevokeReplaced(who)) && token != 0
    requires ReportAt(s, who).value.incarnation == NodeAt(s, who).incarnation && !NodeAt(s, who).lifecycle.Retired?
    requires s.registry.generation < MAX_U64 && s.registry.nextLeaseId < MAX_U64
    ensures var t := Step(s, RevokeReplaced(who));
            var grant := GrantTo(who, NodeAt(s, who).incarnation, token, true, false);
            Enabled(t, grant) && Accepts(NodeAt(Step(t, grant), who), t.now)
  {
    ReplacedHolderFreesSlot(s, who);
    var i := ReplacedHolderRevoked(s, who);
    var t := Step(s, RevokeReplaced(who));
    NewLeaseIsTaken(t, who, token);
  }

  /** A new lease for the running incarnation is delivered, and the node then accepts writes. */
  lemma NewLeaseIsTaken(t: State, who: Who, token: nat)
    requires token != 0 && !NodeAt(t, who).lifecycle.Retired? && t.registry.shard != "" && t.registry.epoch > 0
    requires 0 < t.ttl <= MAX_LEASE_TTL_MS && t.now + MAX_LEASE_TTL_MS <= MAX_U64
    requires |t.registry.leases| <= MAX_LEASE_HISTORY
    requires R.CreatesLease(t.registry, Request(t, NodeAt(t, who).incarnation), t.now)
    ensures var grant := GrantTo(who, NodeAt(t, who).incarnation, token, true, false);
            && Enabled(t, grant) && Accepts(NodeAt(Step(t, grant), who), t.now)
            && NodeAt(Step(t, grant), Other(who)) == NodeAt(t, Other(who)) && Step(t, grant).now == t.now
  {
    E.CreatedLease(t.registry, Request(t, NodeAt(t, who).incarnation), t.now, token);
  }

  // ---------------------------------------------------------------- a whole transfer

  /** The accepting source is asked to fence, does and answers. */
  function FencedSource(s: State): State {
    Step(Step(s, AskFence(s.source.incarnation)),
         DeliverFence(Source, s.source.incarnation, s.registry.nextFenceId, true))
  }

  /** The registry's part of it. */
  lemma FencedRecordIsFree(s: ShardAuthority, i: nat, now: nat)
    requires R.WellFormed(s) && i < |s.leases| && s.leases[i].mode.Mutating? && E.InTime(s.leases[i], now)
    requires forall f :: f in s.fences ==> f.target != s.leases[i].holder || f.acknowledged
    requires s.generation < MAX_U64 && s.nextFenceId < MAX_U64
    ensures var a := RequestFence(s, s.leases[i].holder, now).0;
            var (b, r) := AcknowledgeFence(a, s.leases[i].holder, s.nextFenceId, now);
            && r.Ok? && b.generation == s.generation + 1 && b.nextLeaseId == s.nextLeaseId
            && forall j :: 0 <= j < |b.leases| ==> !R.Busy(b.leases[j])
  {
    var holder := s.leases[i].holder;
    assert R.LeaseOk(s.leases[i], s);
    E.FenceExactly(s, holder, now, i);
    R.StepKeepsWellFormed(s, R.FenceOp(holder, now));
    var a := RequestFence(s, holder, now).0;
    E.AcknowledgedFrees(s, a, AcknowledgeFence(a, holder, s.nextFenceId, now).0, i, now);
  }

  /** The two steps, put together from the registry's answers. */
  lemma FencedSourceIs(s: State, a: ShardAuthority, b: ShardAuthority)
    requires a == RequestFence(s.registry, s.source.incarnation, s.now).0 && s.registry.nextFenceId != 0
    requires b == AcknowledgeFence(a, s.source.incarnation, s.registry.nextFenceId, s.now).0
    requires !s.source.lifecycle.FencedOff?
    ensures var c := FencedSource(s);
            && c.registry == b && c.target == s.target && c.now == s.now && c.ttl == s.ttl
            && c.source.lifecycle.FencedOff?
  {
  }

  lemma SourceFenced(s: State)
    requires Inv(s) && Accepts(s.source, s.now) && s.registry.leases[|s.registry.leases| - 1].state.Active?
    requires forall f :: f in s.registry.fences ==> f.target != s.source.incarnation || f.acknowledged
    requires s.registry.generation + 1 < MAX_U64 && s.registry.nextFenceId < MAX_U64
    ensures var c := FencedSource(s);
            && c.target == s.target && c.now == s.now && c.ttl == s.ttl && c.source.lifecycle.FencedOff?
            && c.registry.generation == s.registry.generation + 1 && c.registry.nextLeaseId == s.registry.nextLeaseId
            && (forall j :: 0 <= j < |c.registry.leases| ==> !R.Busy(c.registry.leases[j]))
  {
    var i, holder := |s.registry.leases| - 1, s.source.incarnation;
    AcceptingBlocks(s.registry, s.source, s.now);
    FencedRecordIsFree(s.registry, i, s.now);
    var a := RequestFence(s.registry, holder, s.now).0;
    FencedSourceIs(s, a, AcknowledgeFence(a, holder, s.registry.nextFenceId, s.now).0);
  }

  /** From every state in which the source accepts writes and is not yet being fenced, the three steps of a transfer
      (ask, fence, grant) are legal and leave the target accepting and the source not. */
  lemma TransferCompletes(s: State, token: nat)
    requires Inv(s) && Accepts(s.source, s.now) && s.registry.leases[|s.registry.leases| - 1].state.Active?
    requires forall f :: f in s.registry.fences ==> f.target != s.source.incarnation || f.acknowledged
    requires s.registry.generation + 1 < MAX_U64 && s.registry.nextFenceId < MAX_U64
    requires s.registry.nextLeaseId < MAX_U64 && token != 0 && !s.target.lifecycle.Retired?
    ensures var c := FencedSource(s);
            var grant := GrantTo(Target, s.target.incarnation, token, true, false);
            && Enabled(c, grant) && !Accepts(c.source, c.now)
            && var d := Step(c, grant);
            Inv(d) && Accepts(d.target, d.now) && !Accepts(d.source, d.now)
  {
    var c := FencedSource(s);
    SourceFenced(s);
    AskFenceKeepsInv(s, s.source.incarnation);
    DeliverFenceKeepsInv(Step(s, AskFence(s.source.incarnation)), Source, s.source.incarnation,
                         s.registry.nextFenceId, true);
    E.FreeSlotCreates(c.registry, Request(c, s.target.incarnation), c.now);
    NewLeaseIsTaken(c, Target, token);
    GrantKeepsInv(c, Target, s.target.incarnation, token, true, false);
  }

  // ---------------------------------------------------------------- a controller restart

  /** The record after a restart of the controller: the same leases, none of them attested. */
  lemma ReloadedLeases(s: State, a: State)
    requires RegistryOk(s) && a == Step(s, ReloadController)
    ensures a.registry == s.registry.(leases := a.registry.leases) && |a.registry.leases| == |s.registry.leases|
    ensures forall j :: 0 <= j < |a.registry.leases| ==>
              a.registry.leases[j] == s.registry.leases[j].(attested := false)
    ensures a.now == s.now && a.source == s.source && a.target == s.target
  {
    R.ReloadClearsOnlyAttestation(s.registry);
  }

  /** A node that accepts writes, once reported, is re-attested: its lease is the slot's. */
  lemma ReportedIsReattested(a: State, who: Who, b: State)
    requires Inv(a) && Accepts(NodeAt(a, who), a.now) && a.registry.leases[|a.registry.leases| - 1].state.Active?
    requires b == Step(a, Observe(who))
    ensures b.registry == a.registry && NodeAt(b, who) == NodeAt(a, who) && b.now == a.now
    ensures Enabled(b, ReattestAt(who, true))
    ensures ViewOf(b.registry, b.now).mutating == Some(a.registry.leases[|a.registry.leases| - 1])
  {
    NodeAndReport(a, who);
    AcceptingBlocks(a.registry, NodeAt(a, who), a.now);
    R.ViewReportsSlot(a.registry, a.now);
  }

  lemma ReattestTakes(b: State, who: Who, current: Lease, c: State)
    requires Accepts(NodeAt(b, who), b.now) && ViewOf(b.registry, b.now).mutating == Some(current)
    requires current.token == NodeAt(b, who).lease.value.token && E.InTime(current, b.now)
    requires |b.registry.leases| > 0 && current == b.registry.leases[|b.registry.leases| - 1]
    requires E.FirstOf(b.registry.leases, current.holder, current.token, |b.registry.leases| - 1)
    requires c == Step(b, ReattestAt(who, true))
    ensures |c.registry.leases| == |b.registry.leases| && c.registry.leases[|b.registry.leases| - 1].attested
    ensures Accepts(NodeAt(c, who), c.now)
  {
    E.ReattestExactly(b.registry, current.holder, current.token, b.now, |b.registry.leases| - 1);
  }

  /** After a controller restart the slot's lease is unattested; once the accepting node is reported, its re-attestation
      is a legal step that attests the lease again and leaves the node accepting. */
  lemma ReattestationCompletes(s: State, who: Who, a: State, b: State, c: State)
    requires Inv(s) && Accepts(NodeAt(s, who), s.now) && s.registry.leases[|s.registry.leases| - 1].state.Active?
    requires E.FirstOf(s.registry.leases, NodeAt(s, who).incarnation, NodeAt(s, who).lease.value.token,
                       |s.registry.leases| - 1)
    requires a == Step(s, ReloadController) && b == Step(a, Observe(who)) && c == Step(b, ReattestAt(who, true))
    ensures Enabled(b, ReattestAt(who, true))
    ensures |c.registry.leases| == |b.registry.leases| == |s.registry.leases|
    ensures !b.registry.leases[|s.registry.leases| - 1].attested && c.registry.leases[|s.registry.leases| - 1].attested
    ensures Accepts(NodeAt(c, who), c.now)
  {
    ReloadKeepsInv(s);
    ReloadedLeases(s, a);
    ReportedIsReattested(a, who, b);
    NodeAndReport(a, who);
    ReattestTakes(b, who, a.registry.leases[|a.registry.leases| - 1], c);
  }

  // ---------------------------------------------------------------- what the controller decides on

  /** After a restart of the controller, and after a fence was asked for, nothing is decided on what a node reported
      before: it has to be asked again. */
  lemma OldReportsDecideNothing(s: State, e: Event, who: Who, target: Incarnation, fence: nat, replied: bool)
    requires e.ReloadController? || e.AskFence?
    ensures var t := Step(s, e);
            && !Enabled(t, ReattestAt(who, replied)) && !Enabled(t, RevokeReplaced(who))
            && !Enabled(t, FenceByReport(who, target, fence))
  {
  }

  /** Marking expired leases leaves no live one whose time is up, and the view as it was. */
  lemma ExpiredLeasesAreMarked(s: State)
    ensures var t := Step(s, ExpireRegistry);
            && (forall l :: l in t.registry.leases && R.Busy(l) ==> t.now < l.expiresAt)
            && ViewOf(t.registry, t.now) == ViewOf(s.registry, s.now)
  {
    E.ViewIgnoresExpiry(s.registry, s.now, s.now);
  }

  /** A fence whose answer was lost is settled by the node's report: once the node is reported as fenced or retired, as
      the incarnation the fence names or a later one, the fenced lease (the last) is closed and the slot is free. */
  lemma ReportSettlesFence(s: State, who: Who, k: nat)
    requires RegistryOk(s) && k < |s.registry.fences| && |s.registry.leases| > 0 && !s.registry.fences[k].acknowledged
    requires s.registry.fences[k].fencedLease == s.registry.leases[|s.registry.leases| - 1].id
    requires s.registry.leases[|s.registry.leases| - 1].state.Fencing?
    requires Enabled(s, FenceByReport(who, s.registry.fences[k].target, s.registry.fences[k].id))
    ensures var t := Step(s, FenceByReport(who, s.registry.fences[k].target, s.registry.fences[k].id));
            && (forall j :: 0 <= j < |t.registry.leases| ==> !R.Busy(t.registry.leases[j]))
            && ViewOf(t.registry, t.now).slotHolder == None
  {
    var f, n := s.registry.fences[k], |s.registry.leases| - 1;
    E.AcknowledgeExactly(s.registry, f.target, f.id, s.now, k);
    var t := Step(s, FenceByReport(who, f.target, f.id));
    forall j | 0 <= j < |t.registry.leases| ensures !R.Busy(t.registry.leases[j]) {
      if j < n { assert !R.Busy(s.registry.leases[j]) && s.registry.leases[j].id != s.registry.leases[n].id; }
    }
    R.ViewReportsSlot(t.registry, t.now);
  }

  /** A node that was retired accepts nothing, and comes back retired from a restart. */
  lemma RetiredStops(s: State, who: Who, uuid: nat)
    ensures var t := Step(s, RetireAt(who));
            && NodeAt(t, who).lifecycle.Retired? && NodeAt(t, who).retiredMarker && !Accepts(NodeAt(t, who), t.now)
            && NodeAt(Step(t, Restart(who, uuid)), who).lifecycle.Retired?
            && NodeAt(t, Other(who)) == NodeAt(s, Other(who)) && t.registry == s.registry
  {
  }
}
