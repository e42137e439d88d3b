/** What every run of registry operations on one shard keeps. Clock readings are arbitrary:
    nothing here assumes that time moves forward. */
module AuthorityRuns {
  import opened Common
  import opened Authority

  datatype Op =
    | GrantOp(req: GrantRequest, now: nat, token: nat)
    | RenewOp(id: nat, ttl: nat, now: nat)
    | FenceOp(target: Incarnation, now: nat)
    | AcknowledgeOp(holder: Incarnation, fence: nat, now: nat)
    | RevokeOp(id: nat)
    | ExpireOp(now: nat)
    | ReattestOp(holder: Incarnation, token: nat, now: nat)
    | EpochOp(epoch: nat)
    | ReloadOp

  /** The record after one operation; a reload restores the record's own saved form. */
  function Apply(s: ShardAuthority, op: Op): ShardAuthority {
    match op
    case GrantOp(req, now, token) => Grant(s, req, now, now, token).0
    case RenewOp(id, ttl, now) => Renew(s, id, ttl, now).0
    case FenceOp(target, now) => RequestFence(s, target, now).0
    case AcknowledgeOp(holder, fence, now) => AcknowledgeFence(s, holder, fence, now).0
    case RevokeOp(id) => Revoke(s, id).0
    case ExpireOp(now) => ExpireDue(s, now)
    case ReattestOp(holder, token, now) => Reattest(s, holder, token, now).0
    case EpochOp(epoch) => AdvanceEpoch(s, epoch).0
    case ReloadOp => var r := Restore(s); if r.Ok? then r.value else s
  }

  function Run(s: ShardAuthority, ops: seq<Op>): ShardAuthority
    decreases |ops|
  {
    if ops == [] then s else Run(Apply(s, ops[0]), ops[1..])
  }

  /** Minted tokens are never nil. */
  predicate MintsTokens(ops: seq<Op>) {
    forall i :: 0 <= i < |ops| ==> ops[i].GrantOp? ==> ops[i].token != 0
  }

  // ---------------------------------------------------------------- the invariant

  /** A lease that is stored as occupying the mutation slot. */
  predicate Busy(l: Lease) { l.mode.Mutating? && Live(l.state) }

  predicate SingleSlot(leases: seq<Lease>) {
    forall i, j :: 0 <= i < j < |leases| ==> !(Busy(leases[i]) && Busy(leases[j]))
  }

  predicate IdsOrdered(leases: seq<Lease>, next: nat) {
    && (forall i :: 0 <= i < |leases| ==> 0 < leases[i].id < next)
    && (forall i, j :: 0 <= i < j < |leases| ==> leases[i].id < leases[j].id)
  }

  predicate LexLess(e: nat, g: nat, e': nat, g': nat) {
    e < e' || (e == e' && g < g')
  }

  predicate LexAtMost(e: nat, g: nat, e': nat, g': nat) {
    e < e' || (e == e' && g <= g')
  }

  predicate LeaseOk(l: Lease, s: ShardAuthority) {
    && LoadableLease(l) && l.shard == s.shard && LexAtMost(l.epoch, l.generation, s.epoch, s.generation)
    && (l.state.Fencing? ==> l.mode.Mutating?)
  }

  predicate LeasesOk(s: ShardAuthority) {
    forall i :: 0 <= i < |s.leases| ==> LeaseOk(s.leases[i], s)
  }

  /** Fences carry increasing ids and name the holder of the lease they fence. */
  predicate FencesOk(s: ShardAuthority) {
    && (forall k :: 0 <= k < |s.fences| ==>
          LoadableFence(s.fences[k]) && s.fences[k].id < s.nextFenceId && s.fences[k].fencedLease < s.nextLeaseId)
    && (forall k, m :: 0 <= k < m < |s.fences| ==> s.fences[k].id < s.fences[m].id)
    && (forall k, i :: 0 <= k < |s.fences| && 0 <= i < |s.leases| ==>
          s.leases[i].id == s.fences[k].fencedLease ==> s.leases[i].holder == s.fences[k].target)
  }

  predicate WellFormed(s: ShardAuthority) {
    && s.shard != "" && s.epoch > 0 && s.generation > 0 && s.nextLeaseId > 0 && s.nextFenceId > 0
    && |s.leases| <= MAX_LEASE_HISTORY && |s.fences| <= MAX_FENCE_HISTORY
    && IdsOrdered(s.leases, s.nextLeaseId)
    && SingleSlot(s.leases)
    && LeasesOk(s)
    && FencesOk(s)
  }

  // ---------------------------------------------------------------- how a single lease may change

  predicate StateFollows(a: LeaseState, b: LeaseState) {
    || a == b
    || a.Active?
    || (a.Fencing? && !b.Active?)
    || ((a.Fenced? || a.Expired?) && b.Revoked?)
  }

  /** Everything that identifies a lease is fixed for its whole life, and its state only moves on. */
  predicate Evolves(a: Lease, b: Lease) {
    && a.id == b.id && a.shard == b.shard && a.holder == b.holder && a.epoch == b.epoch
    && a.generation == b.generation && a.token == b.token && a.mode == b.mode
    && StateFollows(a.state, b.state) && (b.state.Fencing? ==> a.state.Fencing? || a.mode.Mutating?)
  }

  predicate AllEvolve(s: seq<Lease>, t: seq<Lease>) {
    |s| == |t| && forall i :: 0 <= i < |s| ==> Evolves(s[i], t[i])
  }

  /** The operation created a lease (its id is the one the record was about to hand out). */
  predicate Created(s: ShardAuthority, op: Op) {
    op.GrantOp? && Apply(s, op).nextLeaseId != s.nextLeaseId
  }

  lemma GrantEvolves(s: ShardAuthority, req: GrantRequest, now: nat, slotNow: nat, token: nat)
    ensures var t := Grant(s, req, now, slotNow, token).0;
            if t.nextLeaseId == s.nextLeaseId then AllEvolve(s.leases, t.leases)
            else
              && t.nextLeaseId == s.nextLeaseId + 1
              && AllEvolve(s.leases, ExpireAll(s.leases, now))
              && t.leases == Bounded(ExpireAll(s.leases, now) +
                             [NewLease(t.(nextLeaseId := s.nextLeaseId), req, now, token)],
                                     MAX_LEASE_HISTORY)
              && (req.mode.Mutating? ==> forall i :: 0 <= i < |s.leases| ==>
                  !Blocks(ExpireAll(s.leases, now)[i], slotNow))
              && CheckRequest(req).Ok?
  {
    assert AllEvolve(s.leases, ExpireAll(s.leases, now));
  }

  /** What every operation but a grant leaves as it was. */
  predicate Frame(s: ShardAuthority, t: ShardAuthority) {
    && AllEvolve(s.leases, t.leases)
    && t.shard == s.shard && t.nextLeaseId == s.nextLeaseId && s.nextFenceId <= t.nextFenceId
    && LexAtMost(s.epoch, s.generation, t.epoch, t.generation)
    && (s.epoch > 0 && s.generation > 0 ==> t.epoch > 0 && t.generation > 0)
  }

  predicate SameExpiries(s: ShardAuthority, t: ShardAuthority) {
    |s.leases| == |t.leases| && forall i :: 0 <= i < |s.leases| ==> t.leases[i].expiresAt == s.leases[i].expiresAt
  }

  lemma RenewFrame(s: ShardAuthority, id: nat, ttl: nat, now: nat)
    ensures Frame(s, Renew(s, id, ttl, now).0)
  {
    assert AllEvolve(s.leases, ExpireAll(s.leases, now));
  }

  lemma FenceFrame(s: ShardAuthority, target: Incarnation, now: nat)
    ensures Frame(s, RequestFence(s, target, now).0) && SameExpiries(s, RequestFence(s, target, now).0)
  {
    assert AllEvolve(s.leases, ExpireAll(s.leases, now));
  }

  lemma AcknowledgeFrame(s: ShardAuthority, holder: Incarnation, fence: nat, now: nat)
    ensures Frame(s, AcknowledgeFence(s, holder, fence, now).0)
    ensures SameExpiries(s, AcknowledgeFence(s, holder, fence, now).0)
  {
  }

  lemma ReattestFrame(s: ShardAuthority, holder: Incarnation, token: nat, now: nat)
    ensures Frame(s, Reattest(s, holder, token, now).0) && SameExpiries(s, Reattest(s, holder, token, now).0)
  {
    assert AllEvolve(s.leases, ExpireAll(s.leases, now));
  }

  lemma OtherOpsFrame(s: ShardAuthority, op: Op)
    requires !op.GrantOp?
    ensures Frame(s, Apply(s, op))
    ensures !op.RenewOp? ==> SameExpiries(s, Apply(s, op))
  {
    match op
    case RenewOp(id, ttl, now) => RenewFrame(s, id, ttl, now);
    case FenceOp(target, now) => FenceFrame(s, target, now);
    case AcknowledgeOp(holder, fence, now) => AcknowledgeFrame(s, holder, fence, now);
    case ReattestOp(holder, token, now) => ReattestFrame(s, holder, token, now);
    case _ =>
  }

  lemma GrantCounters(s: ShardAuthority, req: GrantRequest, now: nat, token: nat)
    ensures var t := Grant(s, req, now, now, token).0;
            && t.shard == s.shard && t.epoch == s.epoch && s.generation <= t.generation
            && s.nextLeaseId <= t.nextLeaseId && t.nextFenceId == s.nextFenceId && t.fences == s.fences
  {
  }

  /** The pair (epoch, generation) never moves back. */
  lemma EpochGenerationGrows(s: ShardAuthority, op: Op)
    ensures LexAtMost(s.epoch, s.generation, Apply(s, op).epoch, Apply(s, op).generation)
    ensures Apply(s, op).shard == s.shard
    ensures s.nextLeaseId <= Apply(s, op).nextLeaseId
    ensures s.nextFenceId <= Apply(s, op).nextFenceId
    ensures s.epoch > 0 && s.generation > 0 ==> Apply(s, op).epoch > 0 && Apply(s, op).generation > 0
  {
    if op.GrantOp? { GrantCounters(s, op.req, op.now, op.token); } else { OtherOpsFrame(s, op); }
  }

  // ---------------------------------------------------------------- one step keeps the invariant

  lemma EvolvedKeeps(s: ShardAuthority, leases: seq<Lease>, t: ShardAuthority)
    requires WellFormed(s) && AllEvolve(s.leases, leases) && t.leases == leases
    requires t.shard == s.shard && LexAtMost(s.epoch, s.generation, t.epoch, t.generation)
    requires s.nextLeaseId <= t.nextLeaseId
    ensures |leases| <= MAX_LEASE_HISTORY
    ensures IdsOrdered(leases, t.nextLeaseId) && SingleSlot(leases) && LeasesOk(t)
  {
    forall i | 0 <= i < |leases| ensures LeaseOk(leases[i], t) {
      assert LeaseOk(s.leases[i], s) && Evolves(s.leases[i], leases[i]);
    }
  }

  /** The history after a lease was added at the end: entry `j` was entry `j + d` before. */
  predicate Appended(m: seq<Lease>, lease: Lease, t: seq<Lease>, d: nat) {
    && d <= 1 && d <= |m| && |t| == |m| + 1 - d
    && t[|t| - 1] == lease
    && (forall j :: 0 <= j < |t| - 1 ==> t[j] == m[j + d])
  }

  lemma BoundedIsAppended(m: seq<Lease>, lease: Lease)
    requires |m| <= MAX_LEASE_HISTORY
    ensures Appended(m, lease, Bounded(m + [lease], MAX_LEASE_HISTORY), if |m| == MAX_LEASE_HISTORY then 1 else 0)
    ensures |Bounded(m + [lease], MAX_LEASE_HISTORY)| <= MAX_LEASE_HISTORY
  {
  }

  lemma AppendKeepsOrder(m: seq<Lease>, lease: Lease, t: seq<Lease>, d: nat)
    requires Appended(m, lease, t, d) && lease.id > 0 && IdsOrdered(m, lease.id)
    ensures IdsOrdered(t, lease.id + 1)
  {
  }

  lemma AppendKeepsSlot(m: seq<Lease>, lease: Lease, t: seq<Lease>, d: nat)
    requires Appended(m, lease, t, d) && SingleSlot(m)
    requires Busy(lease) ==> forall i :: 0 <= i < |m| ==> !Busy(m[i])
    ensures SingleSlot(t)
  {
  }

  lemma AppendKeepsLeases(m: ShardAuthority, lease: Lease, t: ShardAuthority, d: nat)
    requires Appended(m.leases, lease, t.leases, d) && LeasesOk(m) && LeaseOk(lease, t)
    requires t.shard == m.shard && LexAtMost(m.epoch, m.generation, t.epoch, t.generation)
    ensures LeasesOk(t)
  {
    forall j | 0 <= j < |t.leases| ensures LeaseOk(t.leases[j], t) {
      if j < |t.leases| - 1 { assert LeaseOk(m.leases[j + d], m); }
    }
  }

  lemma NewLeaseKeeps(m: ShardAuthority, lease: Lease, t: ShardAuthority)
    requires |m.leases| <= MAX_LEASE_HISTORY && IdsOrdered(m.leases, lease.id) && SingleSlot(m.leases) && LeasesOk(m)
    requires t.leases == Bounded(m.leases + [lease], MAX_LEASE_HISTORY)
    requires t.shard == m.shard && LexAtMost(m.epoch, m.generation, t.epoch, t.generation)
    requires lease.id > 0 && t.nextLeaseId == lease.id + 1 && LeaseOk(lease, t)
    requires Busy(lease) ==> forall i :: 0 <= i < |m.leases| ==> !Busy(m.leases[i])
    ensures |t.leases| <= MAX_LEASE_HISTORY
    ensures IdsOrdered(t.leases, t.nextLeaseId) && SingleSlot(t.leases) && LeasesOk(t)
  {
    var d := if |m.leases| == MAX_LEASE_HISTORY then 1 else 0;
    BoundedIsAppended(m.leases, lease);
    AppendKeepsOrder(m.leases, lease, t.leases, d);
    AppendKeepsSlot(m.leases, lease, t.leases, d);
    AppendKeepsLeases(m, lease, t, d);
  }

  lemma GrantKeepsLeases(s: ShardAuthority, req: GrantRequest, now: nat, token: nat)
    requires WellFormed(s) && token != 0
    ensures var t := Grant(s, req, now, now, token).0;
            && |t.leases| <= MAX_LEASE_HISTORY
            && IdsOrdered(t.leases, t.nextLeaseId) && SingleSlot(t.leases) && LeasesOk(t)
  {
    var t := Grant(s, req, now, now, token).0;
    GrantCounters(s, req, now, token);
    GrantEvolves(s, req, now, now, token);
    if t.nextLeaseId == s.nextLeaseId {
      EvolvedKeeps(s, t.leases, t);
    } else {
      var m := s.(leases := ExpireAll(s.leases, now));
      EvolvedKeeps(s, m.leases, m);
      forall i | req.mode.Mutating? && 0 <= i < |m.leases| ensures !Busy(m.leases[i]) {
        assert !Blocks(m.leases[i], now);
      }
      NewLeaseKeeps(m, NewLease(t.(nextLeaseId := s.nextLeaseId), req, now, token), t);
    }
  }

  /** Entry `j` of `t` is either new or is entry `j + d` of `s` with the same id and holder. */
  predicate Traceable(s: ShardAuthority, t: ShardAuthority, d: nat) {
    forall j :: 0 <= j < |t.leases| ==>
      || t.leases[j].id >= s.nextLeaseId
      || (j + d < |s.leases| && s.leases[j + d].id == t.leases[j].id && s.leases[j + d].holder == t.leases[j].holder)
  }

  /** Fence records keep naming the right holder while leases evolve. */
  lemma FencesSurvive(s: ShardAuthority, t: ShardAuthority, d: nat)
    requires FencesOk(s) && t.fences == s.fences && s.nextFenceId <= t.nextFenceId && s.nextLeaseId <= t.nextLeaseId
    requires Traceable(s, t, d)
    ensures FencesOk(t)
  {
  }

  lemma EvolvedFences(s: ShardAuthority, t: ShardAuthority)
    requires FencesOk(s) && AllEvolve(s.leases, t.leases) && t.fences == s.fences
    requires s.nextFenceId <= t.nextFenceId && s.nextLeaseId <= t.nextLeaseId
    ensures FencesOk(t)
  {
    forall j | 0 <= j < |t.leases| ensures Evolves(s.leases[j], t.leases[j]) {}
    FencesSurvive(s, t, 0);
  }

  lemma GrantKeepsFences(s: ShardAuthority, req: GrantRequest, now: nat, token: nat)
    requires |s.leases| <= MAX_LEASE_HISTORY && FencesOk(s)
    ensures FencesOk(Grant(s, req, now, now, token).0)
  {
    var t := Grant(s, req, now, now, token).0;
    GrantCounters(s, req, now, token);
    GrantEvolves(s, req, now, now, token);
    if t.nextLeaseId == s.nextLeaseId {
      EvolvedFences(s, t);
    } else {
      var e := ExpireAll(s.leases, now);
      var d := if |e| == MAX_LEASE_HISTORY then 1 else 0;
      BoundedIsAppended(e, NewLease(t.(nextLeaseId := s.nextLeaseId), req, now, token));
      forall j | 0 <= j < |t.leases| - 1
        ensures s.leases[j + d].id == t.leases[j].id && s.leases[j + d].holder == t.leases[j].holder
      {
        assert Evolves(s.leases[j + d], e[j + d]);
      }
      assert t.leases[|t.leases| - 1].id == s.nextLeaseId;
      FencesSurvive(s, t, d);
    }
  }

  /** A fence naming the holder of a lease on record can be added at the end. */
  lemma FenceAppended(s: ShardAuthority, fence: Fence, t: ShardAuthority)
    requires FencesOk(s) && |s.fences| <= MAX_FENCE_HISTORY
    requires t.leases == s.leases && t.nextLeaseId == s.nextLeaseId && t.nextFenceId == s.nextFenceId + 1
    requires t.fences == Bounded(s.fences + [fence], MAX_FENCE_HISTORY)
    requires LoadableFence(fence) && fence.id == s.nextFenceId && fence.fencedLease < s.nextLeaseId
    requires forall i :: 0 <= i < |s.leases| && s.leases[i].id == fence.fencedLease ==>
              s.leases[i].holder == fence.target
    ensures FencesOk(t) && |t.fences| <= MAX_FENCE_HISTORY
  {
    var d := if |s.fences| == MAX_FENCE_HISTORY then 1 else 0;
    forall k | 0 <= k < |t.fences| ensures t.fences[k] == if k + d < |s.fences| then s.fences[k + d] else fence {}
  }

  lemma FenceRequestKeepsFences(s: ShardAuthority, target: Incarnation, now: nat)
    requires WellFormed(s)
    ensures FencesOk(RequestFence(s, target, now).0) && |RequestFence(s, target, now).0.fences| <= MAX_FENCE_HISTORY
  {
    var t := RequestFence(s, target, now).0;
    OtherOpsFrame(s, FenceOp(target, now));
    var before := t.(fences := s.fences, nextFenceId := s.nextFenceId);
    EvolvedFences(s, before);
    if t.nextFenceId != s.nextFenceId {
      var e := ExpireAll(s.leases, now);
      var i := IndexWhere(e, (l: Lease) => HoldsMutation(l, target, now));
      var fence := NewFence(s.(leases := e, generation := s.generation + 1), target, e[i], now);
      EvolvedKeeps(s, t.leases, t);
      assert t.leases[i].id == fence.fencedLease && t.leases[i].holder == target;
      FenceAppended(before, fence, t);
    }
  }

  lemma AcknowledgeKeepsFences(s: ShardAuthority, holder: Incarnation, fence: nat, now: nat)
    requires WellFormed(s)
    ensures FencesOk(AcknowledgeFence(s, holder, fence, now).0)
    ensures |AcknowledgeFence(s, holder, fence, now).0.fences| <= MAX_FENCE_HISTORY
  {
    var t := AcknowledgeFence(s, holder, fence, now).0;
    OtherOpsFrame(s, AcknowledgeOp(holder, fence, now));
    EvolvedFences(s, t.(fences := s.fences));
  }

  lemma FencesUntouched(s: ShardAuthority, op: Op)
    requires !op.FenceOp? && !op.AcknowledgeOp?
    ensures Apply(s, op).fences == s.fences
  {
  }

  lemma FencePartKept(s: ShardAuthority, op: Op)
    requires WellFormed(s)
    ensures FencesOk(Apply(s, op)) && |Apply(s, op).fences| <= MAX_FENCE_HISTORY
  {
    match op
    case FenceOp(target, now) => FenceRequestKeepsFences(s, target, now);
    case AcknowledgeOp(holder, fence, now) => AcknowledgeKeepsFences(s, holder, fence, now);
    case GrantOp(req, now, token) => GrantKeepsFences(s, req, now, token); FencesUntouched(s, op);
    case _ =>
      FencesUntouched(s, op);
      OtherOpsFrame(s, op);
      EpochGenerationGrows(s, op);
      EvolvedFences(s, Apply(s, op));
  }

  lemma LeasePartKept(s: ShardAuthority, op: Op)
    requires WellFormed(s) && (op.GrantOp? ==> op.token != 0)
    ensures var t := Apply(s, op);
            && |t.leases| <= MAX_LEASE_HISTORY
            && IdsOrdered(t.leases, t.nextLeaseId) && SingleSlot(t.leases) && LeasesOk(t)
  {
    if op.GrantOp? {
      GrantKeepsLeases(s, op.req, op.now, op.token);
    } else {
      EpochGenerationGrows(s, op);
      OtherOpsFrame(s, op);
      EvolvedKeeps(s, Apply(s, op).leases, Apply(s, op));
    }
  }

  lemma StepKeepsWellFormed(s: ShardAuthority, op: Op)
    requires WellFormed(s) && (op.GrantOp? ==> op.token != 0)
    ensures WellFormed(Apply(s, op))
  {
    EpochGenerationGrows(s, op);
    LeasePartKept(s, op);
    FencePartKept(s, op);
  }

  // ---------------------------------------------------------------- whole runs

  lemma {:induction false} RunKeepsWellFormed(s: ShardAuthority, ops: seq<Op>)
    requires WellFormed(s) && MintsTokens(ops)
    ensures WellFormed(Run(s, ops))
    decreases |ops|
  {
    if ops != [] {
      StepKeepsWellFormed(s, ops[0]);
      RunKeepsWellFormed(Apply(s, ops[0]), ops[1..]);
    }
  }

  /** Every run of registry operations on a freshly established shard, reloads included, leaves at
      most one mutating lease in state Active or Fencing. */
  lemma AtMostOneMutationSlot(shard: string, epoch: nat, ops: seq<Op>, i: nat, j: nat)
    requires Establish(shard, epoch).Ok? && MintsTokens(ops)
    ensures var s := Run(Establish(shard, epoch).value, ops);
            i < |s.leases| && j < |s.leases| && Busy(s.leases[i]) && Busy(s.leases[j]) ==> i == j
  {
    RunKeepsWellFormed(Establish(shard, epoch).value, ops);
  }

  /** A well-formed record survives its own saved form, with attestation cleared and nothing else. */
  lemma ReloadClearsOnlyAttestation(s: ShardAuthority)
    requires WellFormed(s)
    ensures Restore(s) == Ok(s.(leases := Unattested(s.leases)))
  {
    var p := (l: Lease) => LeaseFault(l, s.shard).Some?;
    forall i | 0 <= i < |s.leases| ensures !p(s.leases[i]) { assert LeaseOk(s.leases[i], s); }
    IndexWhereUnique(s.leases, p, |s.leases|);
  }

  // ---------------------------------------------------------------- claims and views

  lemma AcceptedClaimNamesSlot(s: ShardAuthority, c: Claim, now: nat) returns (i: nat)
    requires ValidateClaim(s, c, Mutating, now).Ok?
    ensures i < |s.leases| && Busy(s.leases[i]) && s.leases[i].state.Active? && now < s.leases[i].expiresAt
    ensures s.leases[i].holder == c.incarnation && s.leases[i].token == c.token && s.leases[i].attested
    ensures c.epoch == s.epoch && c.generation == s.generation
  {
    i := IndexWhere(s.leases, (l: Lease) => l.holder == c.incarnation && l.token == c.token);
  }

  lemma {:induction false} ScanFindsSlot(s: ShardAuthority, now: nat, n: nat, i: nat)
    requires n <= |s.leases| && SingleSlot(s.leases)
    requires i < |s.leases| && Blocks(s.leases[i], now)
    ensures Scan(s, now, n).slotHolder == (if i < n then Some(s.leases[i]) else None)
    ensures Scan(s, now, n).mutating == (if i < n && s.leases[i].state.Active? then Some(s.leases[i]) else None)
    decreases n
  {
    if n > 0 {
      ScanFindsSlot(s, now, n - 1, i);
      if n - 1 != i {
        assert Busy(s.leases[i]);
        assert !Busy(s.leases[n - 1]);
      }
    }
  }

  lemma {:induction false} ScanFindsNoSlot(s: ShardAuthority, now: nat, n: nat)
    requires n <= |s.leases| && forall i :: 0 <= i < |s.leases| ==> !Blocks(s.leases[i], now)
    ensures Scan(s, now, n).slotHolder == None && Scan(s, now, n).mutating == None
    decreases n
  {
    if n > 0 { ScanFindsNoSlot(s, now, n - 1); }
  }

  /** The view reports exactly the lease that occupies the mutation slot, or nothing. */
  lemma ViewReportsSlot(s: ShardAuthority, now: nat)
    requires SingleSlot(s.leases)
    ensures forall i :: 0 <= i < |s.leases| && Blocks(s.leases[i], now) ==>
              && ViewOf(s, now).slotHolder == Some(s.leases[i])
              && (ViewOf(s, now).mutating == if s.leases[i].state.Active? then Some(s.leases[i]) else None)
    ensures (forall i :: 0 <= i < |s.leases| ==> !Blocks(s.leases[i], now)) ==>
              ViewOf(s, now).slotHolder == None && ViewOf(s, now).mutating == None
  {
    forall i | 0 <= i < |s.leases| && Blocks(s.leases[i], now)
      ensures ViewOf(s, now).slotHolder == Some(s.leases[i])
      ensures ViewOf(s, now).mutating == if s.leases[i].state.Active? then Some(s.leases[i]) else None
    {
      ScanFindsSlot(s, now, |s.leases|, i);
    }
    if forall i :: 0 <= i < |s.leases| ==> !Blocks(s.leases[i], now) {
      ScanFindsNoSlot(s, now, |s.leases|);
    }
  }

  /** In any reachable record, all claims accepted for mutation at one moment name one holder and
      one token, and the view reports the lease they name. */
  lemma AcceptedClaimsAgree(shard: string, epoch: nat, ops: seq<Op>, c: Claim, d: Claim, now: nat)
    requires Establish(shard, epoch).Ok? && MintsTokens(ops)
    requires ValidateClaim(Run(Establish(shard, epoch).value, ops), c, Mutating, now).Ok?
    requires ValidateClaim(Run(Establish(shard, epoch).value, ops), d, Mutating, now).Ok?
    ensures c.incarnation == d.incarnation && c.token == d.token
    ensures c.epoch == d.epoch && c.generation == d.generation
    ensures var v := ViewOf(Run(Establish(shard, epoch).value, ops), now);
            && v.mutating.Some? && v.mutating == v.slotHolder
            && v.mutating.value.holder == c.incarnation && v.mutating.value.token == c.token
  {
    var s := Run(Establish(shard, epoch).value, ops);
    RunKeepsWellFormed(Establish(shard, epoch).value, ops);
    var i := AcceptedClaimNamesSlot(s, c, now);
    var j := AcceptedClaimNamesSlot(s, d, now);
    assert i == j;
    ViewReportsSlot(s, now);
  }

  // ---------------------------------------------------------------- stale claims stay stale

  /** The operations that supersede every claim issued before them. */
  predicate Supersedes(s: ShardAuthority, op: Op) {
    match op
    case GrantOp(req, now, token) => req.mode.Mutating? && Created(s, op)
    case FenceOp(target, now) => RequestFence(s, target, now).1.Ok?
    case EpochOp(epoch) => AdvanceEpoch(s, epoch).1.Ok?
    case _ => false
  }

  lemma SupersedingGrows(s: ShardAuthority, op: Op)
    requires Supersedes(s, op)
    ensures LexLess(s.epoch, s.generation, Apply(s, op).epoch, Apply(s, op).generation)
  {
  }

  lemma {:induction false} RunGrows(s: ShardAuthority, ops: seq<Op>)
    ensures LexAtMost(s.epoch, s.generation, Run(s, ops).epoch, Run(s, ops).generation)
    decreases |ops|
  {
    if ops != [] {
      EpochGenerationGrows(s, ops[0]);
      RunGrows(Apply(s, ops[0]), ops[1..]);
    }
  }

  /** A claim minted from any lease on record is refused as stale, for every required mode, in every
      state after a new mutating lease, a fence request or an epoch advance. */
  lemma SupersededClaimRefusedForever(s: ShardAuthority, l: Lease, op: Op, later: seq<Op>, required: Mode, now: nat)
    requires WellFormed(s) && l in s.leases && Supersedes(s, op)
    ensures var r := ValidateClaim(Run(Apply(s, op), later), ClaimOf(l), required, now);
            r == Err(StaleEpoch) || r == Err(StaleGeneration)
  {
    var i :| 0 <= i < |s.leases| && s.leases[i] == l;
    assert LeaseOk(s.leases[i], s);
    SupersedingGrows(s, op);
    RunGrows(Apply(s, op), later);
  }

  // ---------------------------------------------------------------- leases over time

  /** `t` descends from `s`: an old lease still on record in `t` was on record in `s` and only moved on. */
  predicate Descends(s: ShardAuthority, t: ShardAuthority) {
    && s.nextLeaseId <= t.nextLeaseId
    && forall j :: 0 <= j < |t.leases| && t.leases[j].id < s.nextLeaseId ==>
         var i := FirstWithId(s.leases, t.leases[j].id);
         i < |s.leases| && Evolves(s.leases[i], t.leases[j])
  }

  lemma FirstWithIdIs(leases: seq<Lease>, next: nat, i: nat)
    requires IdsOrdered(leases, next) && i < |leases|
    ensures FirstWithId(leases, leases[i].id) == i
  {
    IndexWhereUnique(leases, (l: Lease) => l.id == leases[i].id, i);
  }

  lemma FrameDescends(s: ShardAuthority, t: ShardAuthority)
    requires IdsOrdered(s.leases, s.nextLeaseId) && AllEvolve(s.leases, t.leases) && t.nextLeaseId == s.nextLeaseId
    ensures Descends(s, t)
  {
    forall j | 0 <= j < |t.leases| ensures FirstWithId(s.leases, t.leases[j].id) == j {
      assert Evolves(s.leases[j], t.leases[j]);
      FirstWithIdIs(s.leases, s.nextLeaseId, j);
    }
  }

  lemma AppendDescends(s: ShardAuthority, e: seq<Lease>, lease: Lease, t: ShardAuthority, d: nat)
    requires IdsOrdered(s.leases, s.nextLeaseId) && AllEvolve(s.leases, e) && Appended(e, lease, t.leases, d)
    requires lease.id == s.nextLeaseId <= t.nextLeaseId
    ensures Descends(s, t)
  {
    forall j | 0 <= j < |t.leases| - 1
      ensures FirstWithId(s.leases, t.leases[j].id) == j + d && Evolves(s.leases[j + d], t.leases[j])
    {
      assert Evolves(s.leases[j + d], e[j + d]);
      FirstWithIdIs(s.leases, s.nextLeaseId, j + d);
    }
  }

  lemma StepDescends(s: ShardAuthority, op: Op)
    requires |s.leases| <= MAX_LEASE_HISTORY && IdsOrdered(s.leases, s.nextLeaseId)
    ensures Descends(s, Apply(s, op))
  {
    var t := Apply(s, op);
    if op.GrantOp? {
      GrantEvolves(s, op.req, op.now, op.now, op.token);
      if t.nextLeaseId == s.nextLeaseId {
        FrameDescends(s, t);
      } else {
        var e := ExpireAll(s.leases, op.now);
        var lease := NewLease(t.(nextLeaseId := s.nextLeaseId), op.req, op.now, op.token);
        BoundedIsAppended(e, lease);
        AppendDescends(s, e, lease, t, if |e| == MAX_LEASE_HISTORY then 1 else 0);
      }
    } else {
      OtherOpsFrame(s, op);
      FrameDescends(s, t);
    }
  }

  lemma DescendsTransitive(s: ShardAuthority, t: ShardAuthority, u: ShardAuthority)
    requires Descends(s, t) && Descends(t, u)
    ensures Descends(s, u)
  {
    forall k | 0 <= k < |u.leases| && u.leases[k].id < s.nextLeaseId
      ensures var i := FirstWithId(s.leases, u.leases[k].id); i < |s.leases| && Evolves(s.leases[i], u.leases[k])
    {
      var j := FirstWithId(t.leases, u.leases[k].id);
      assert Evolves(t.leases[j], u.leases[k]);
    }
  }

  lemma {:induction false} RunDescends(s: ShardAuthority, ops: seq<Op>)
    requires WellFormed(s) && MintsTokens(ops)
    ensures Descends(s, Run(s, ops))
    decreases |ops|
  {
    if ops == [] {
      forall j | 0 <= j < |s.leases| ensures FirstWithId(s.leases, s.leases[j].id) == j {
        FirstWithIdIs(s.leases, s.nextLeaseId, j);
      }
    } else {
      StepKeepsWellFormed(s, ops[0]);
      StepDescends(s, ops[0]);
      RunDescends(Apply(s, ops[0]), ops[1..]);
      DescendsTransitive(s, Apply(s, ops[0]), Run(s, ops));
    }
  }

  /** No lease ever returns to Active, whatever the run does. */
  lemma NeverActiveAgain(s: ShardAuthority, ops: seq<Op>, i: nat, j: nat)
    requires WellFormed(s) && MintsTokens(ops)
    requires i < |s.leases| && j < |Run(s, ops).leases| && s.leases[i].id == Run(s, ops).leases[j].id
    ensures !s.leases[i].state.Active? ==> !Run(s, ops).leases[j].state.Active?
    ensures Evolves(s.leases[i], Run(s, ops).leases[j])
  {
    RunDescends(s, ops);
    FirstWithIdIs(s.leases, s.nextLeaseId, i);
  }

  // ---------------------------------------------------------------- runs whose grants are all mutating

  predicate OnlyMutatingGrants(ops: seq<Op>) {
    forall i :: 0 <= i < |ops| && ops[i].GrantOp? ==> ops[i].req.mode.Mutating?
  }

  predicate SlotIsLast(s: ShardAuthority) {
    forall i :: 0 <= i < |s.leases| - 1 ==> !Busy(s.leases[i])
  }

  predicate Released(state: LeaseState) { state.Fenced? || state.Expired? || state.Revoked? }

  /** Every busy lease of `s` is still on record in `t`. */
  predicate BusyOnRecord(s: ShardAuthority, t: ShardAuthority) {
    forall i :: 0 <= i < |s.leases| && Busy(s.leases[i]) ==> FirstWithId(t.leases, s.leases[i].id) < |t.leases|
  }

  lemma FrameKeepsSlotLast(s: ShardAuthority, t: ShardAuthority)
    requires SlotIsLast(s) && AllEvolve(s.leases, t.leases)
    ensures SlotIsLast(t) && BusyOnRecord(s, t)
  {
    forall i | 0 <= i < |s.leases| ensures Evolves(s.leases[i], t.leases[i]) {}
  }

  /** A lease appended to a record with no lease in the way is last, and nothing live was dropped. */
  lemma AppendKeepsSlotLast(s: ShardAuthority, e: seq<Lease>, lease: Lease, t: ShardAuthority, d: nat, now: nat)
    requires SlotIsLast(s) && e == ExpireAll(s.leases, now) && Appended(e, lease, t.leases, d)
    requires d == (if |e| == MAX_LEASE_HISTORY then 1 else 0)
    requires forall i :: 0 <= i < |e| ==> !Blocks(e[i], now)
    ensures SlotIsLast(t) && BusyOnRecord(s, t)
  {
    forall j | 0 <= j < |t.leases| - 1 ensures !Busy(t.leases[j]) {
      assert t.leases[j] == e[j + d] && !Blocks(e[j + d], now);
    }
    forall i | 0 <= i < |s.leases| && Busy(s.leases[i])
      ensures FirstWithId(t.leases, s.leases[i].id) < |t.leases|
    {
      assert t.leases[i - d] == e[i];
    }
  }

  lemma GrantKeepsSlotLast(s: ShardAuthority, req: GrantRequest, now: nat, token: nat)
    requires |s.leases| <= MAX_LEASE_HISTORY && SlotIsLast(s) && req.mode.Mutating?
    ensures SlotIsLast(Grant(s, req, now, now, token).0) && BusyOnRecord(s, Grant(s, req, now, now, token).0)
  {
    var t := Grant(s, req, now, now, token).0;
    GrantEvolves(s, req, now, now, token);
    if t.nextLeaseId == s.nextLeaseId {
      FrameKeepsSlotLast(s, t);
    } else {
      var e := ExpireAll(s.leases, now);
      var lease := NewLease(t.(nextLeaseId := s.nextLeaseId), req, now, token);
      BoundedIsAppended(e, lease);
      AppendKeepsSlotLast(s, e, lease, t, if |e| == MAX_LEASE_HISTORY then 1 else 0, now);
    }
  }

  /** With mutating grants only, the slot's lease stays at the end of the list, so the bounded history
      never drops it: a live mutating lease is still on record after any step. */
  lemma MutatingStepKeepsSlotLast(s: ShardAuthority, op: Op)
    requires |s.leases| <= MAX_LEASE_HISTORY && SlotIsLast(s) && (op.GrantOp? ==> op.req.mode.Mutating?)
    ensures SlotIsLast(Apply(s, op)) && BusyOnRecord(s, Apply(s, op))
  {
    if op.GrantOp? {
      GrantKeepsSlotLast(s, op.req, op.now, op.token);
    } else {
      OtherOpsFrame(s, op);
      FrameKeepsSlotLast(s, Apply(s, op));
    }
  }

  /** One step on: the slot's lease is on record, still live or released. */
  lemma SlotTracked(s: ShardAuthority, op: Op, i: nat) returns (n: nat)
    requires WellFormed(s) && SlotIsLast(s) && (op.GrantOp? ==> op.req.mode.Mutating?)
    requires i < |s.leases| && Busy(s.leases[i])
    ensures n < |Apply(s, op).leases| && Apply(s, op).leases[n].id == s.leases[i].id
    ensures Busy(Apply(s, op).leases[n]) || Released(Apply(s, op).leases[n].state)
  {
    MutatingStepKeepsSlotLast(s, op);
    StepDescends(s, op);
    n := FirstWithId(Apply(s, op).leases, s.leases[i].id);
    FirstWithIdIs(s.leases, s.nextLeaseId, i);
  }

  lemma {:induction false} MutatingRunKeepsSlotLast(s: ShardAuthority, ops: seq<Op>)
    requires WellFormed(s) && SlotIsLast(s) && MintsTokens(ops) && OnlyMutatingGrants(ops)
    ensures WellFormed(Run(s, ops)) && SlotIsLast(Run(s, ops))
    decreases |ops|
  {
    if ops != [] {
      StepKeepsWellFormed(s, ops[0]);
      MutatingStepKeepsSlotLast(s, ops[0]);
      MutatingRunKeepsSlotLast(Apply(s, ops[0]), ops[1..]);
    }
  }

  lemma RunOneMore(s: ShardAuthority, ops: seq<Op>, k: nat)
    requires ops != [] && k < |ops|
    ensures Run(s, ops[..k + 1]) == Run(Apply(s, ops[0]), ops[1..][..k])
  {
    assert ops[..k + 1][0] == ops[0] && ops[..k + 1][1..] == ops[1..][..k];
  }

  /** After `k` operations the lease with this id is on record and no longer live. */
  predicate ReleasedAfter(s: ShardAuthority, ops: seq<Op>, k: nat, id: nat)
    requires k <= |ops|
  {
    var t := Run(s, ops[..k]);
    var m := FirstWithId(t.leases, id);
    m < |t.leases| && Released(t.leases[m].state)
  }

  /** The slot passes to another lease only after the previous one was fenced, expired or revoked:
      somewhere along the run (after `k` operations) it is on record in such a state. */
  lemma {:induction false} HandoverAfterRelease(s: ShardAuthority, ops: seq<Op>, i: nat, j: nat) returns (k: nat)
    requires WellFormed(s) && SlotIsLast(s) && MintsTokens(ops) && OnlyMutatingGrants(ops)
    requires i < |s.leases| && Busy(s.leases[i])
    requires j < |Run(s, ops).leases| && Busy(Run(s, ops).leases[j]) && Run(s, ops).leases[j].id != s.leases[i].id
    ensures k <= |ops| && ReleasedAfter(s, ops, k, s.leases[i].id)
    decreases |ops|, 0
  {
    if ops == [] {
      assert false;
    } else {
      var n := SlotTracked(s, ops[0], i);
      MutatingStepKeepsSlotLast(s, ops[0]);
      StepKeepsWellFormed(s, ops[0]);
      k := HandoverFrom(Apply(s, ops[0]), ops, n, j);
      RunOneMore(s, ops, k);
      k := k + 1;
    }
  }

  lemma HandoverFrom(t: ShardAuthority, ops: seq<Op>, n: nat, j: nat) returns (k: nat)
    requires ops != [] && WellFormed(t) && SlotIsLast(t) && MintsTokens(ops) && OnlyMutatingGrants(ops)
    requires n < |t.leases| && (Busy(t.leases[n]) || Released(t.leases[n].state))
    requires j < |Run(t, ops[1..]).leases| && Busy(Run(t, ops[1..]).leases[j])
    requires Run(t, ops[1..]).leases[j].id != t.leases[n].id
    ensures k < |ops| && ReleasedAfter(t, ops[1..], k, t.leases[n].id)
    decreases |ops| - 1, 1
  {
    if Busy(t.leases[n]) {
      k := HandoverAfterRelease(t, ops[1..], n, j);
    } else {
      k := 0;
      FirstWithIdIs(t.leases, t.nextLeaseId, n);
      assert ops[1..][..0] == [];
    }
  }

  // ---------------------------------------------------------------- which grants create a lease

  /** The grant finds nothing to renew or to run into, and no counter or limit stops it. */
  predicate CreatesLease(s: ShardAuthority, req: GrantRequest, now: nat) {
    && CheckRequest(req).Ok? && s.nextLeaseId < MAX_U64
    && (if req.mode.ReadOnlyShared? then CountActiveReadOnly(s.leases, now) < MAX_READ_ONLY_LEASES
        else s.generation < MAX_U64)
    && forall i :: 0 <= i < |s.leases| ==>
         if req.mode.Mutating? then !Blocks(s.leases[i], now) else !SameHolderAndMode(s.leases[i], req, now)
  }

  lemma {:induction false} ExpiryKeepsCount(leases: seq<Lease>, now: nat)
    ensures CountActiveReadOnly(ExpireAll(leases, now), now) == CountActiveReadOnly(leases, now)
  {
    if leases != [] {
      var head := leases[..|leases| - 1];
      ExpiryKeepsCount(head, now);
      assert ExpireAll(leases, now)[..|leases| - 1] == ExpireAll(head, now);
    }
  }

  lemma CreatesExactly(s: ShardAuthority, req: GrantRequest, now: nat, token: nat)
    ensures Grant(s, req, now, now, token).0.nextLeaseId != s.nextLeaseId <==> CreatesLease(s, req, now)
  {
    var e := ExpireAll(s.leases, now);
    ExpiryKeepsCount(s.leases, now);
    forall i | 0 <= i < |e|
      ensures Blocks(e[i], now) == Blocks(s.leases[i], now)
      ensures SameHolderAndMode(e[i], req, now) == SameHolderAndMode(s.leases[i], req, now)
    {
      assert e[i] == Expire(s.leases[i], now);
    }
  }

  /** What a grant that creates a lease leaves: the expired history with the new lease at the end. */
  lemma CreatedAppends(s: ShardAuthority, req: GrantRequest, now: nat, token: nat)
    requires CreatesLease(s, req, now) && |s.leases| <= MAX_LEASE_HISTORY
    ensures var t := Grant(s, req, now, now, token).0;
            && t.generation == (if req.mode.ReadOnlyShared? then s.generation else s.generation + 1)
            && t.nextLeaseId == s.nextLeaseId + 1 && t.epoch == s.epoch && t.shard == s.shard
            && Appended(ExpireAll(s.leases, now), NewLease(s.(generation := t.generation), req, now, token), t.leases,
                        if |s.leases| == MAX_LEASE_HISTORY then 1 else 0)
  {
    var t := Grant(s, req, now, now, token).0;
    CreatesExactly(s, req, now, token);
    GrantEvolves(s, req, now, now, token);
    BoundedIsAppended(ExpireAll(s.leases, now), NewLease(t.(nextLeaseId := s.nextLeaseId), req, now, token));
  }
}
