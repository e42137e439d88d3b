/** Which claims the registry accepts: in runs whose grants all carry authority the live mutating lease carries the
    record's epoch and generation, so its own claim is the only one accepted; a grant of mode None breaks that. */
module AuthorityClaims {
  import opened Common
  import opened Authority
  import opened AuthorityRuns

  /** The live, unfenced mutating lease belongs to the record's epoch and generation. */
  predicate Current(s: ShardAuthority) {
    forall i :: 0 <= i < |s.leases| && Busy(s.leases[i]) && s.leases[i].state.Active? ==>
      s.leases[i].epoch == s.epoch && s.leases[i].generation == s.generation
  }

  predicate CarriesAuthority(op: Op) { op.GrantOp? ==> !op.req.mode.NoAuthority? }

  predicate AllCarryAuthority(ops: seq<Op>) { forall i :: 0 <= i < |ops| ==> CarriesAuthority(ops[i]) }

  // ---------------------------------------------------------------- the invariant

  lemma EvolvedCurrent(s: ShardAuthority, t: ShardAuthority)
    requires Current(s) && AllEvolve(s.leases, t.leases) && t.epoch == s.epoch && t.generation == s.generation
    ensures Current(t)
  {
    forall i | 0 <= i < |t.leases| ensures Evolves(s.leases[i], t.leases[i]) {}
  }

  lemma NothingBusyIsCurrent(s: ShardAuthority)
    requires forall i :: 0 <= i < |s.leases| ==> !(Busy(s.leases[i]) && s.leases[i].state.Active?)
    ensures Current(s)
  {
  }

  lemma CreatedIsCurrent(s: ShardAuthority, req: GrantRequest, now: nat, token: nat)
    requires Current(s) && |s.leases| <= MAX_LEASE_HISTORY && !req.mode.NoAuthority? && CreatesLease(s, req, now)
    ensures Current(Grant(s, req, now, now, token).0)
  {
    var t := Grant(s, req, now, now, token).0;
    var e := ExpireAll(s.leases, now);
    var d := if |e| == MAX_LEASE_HISTORY then 1 else 0;
    CreatedAppends(s, req, now, token);
    forall j | 0 <= j < |t.leases| && Busy(t.leases[j]) && t.leases[j].state.Active?
      ensures t.leases[j].epoch == t.epoch && t.leases[j].generation == t.generation
    {
      if j < |t.leases| - 1 {
        assert t.leases[j] == e[j + d] == Expire(s.leases[j + d], now);
        assert Blocks(s.leases[j + d], now);
      }
    }
  }

  lemma GrantKeepsCurrent(s: ShardAuthority, req: GrantRequest, now: nat, token: nat)
    requires Current(s) && |s.leases| <= MAX_LEASE_HISTORY && !req.mode.NoAuthority?
    ensures Current(Grant(s, req, now, now, token).0)
  {
    var t := Grant(s, req, now, now, token).0;
    var e := ExpireAll(s.leases, now);
    CreatesExactly(s, req, now, token);
    if CreatesLease(s, req, now) {
      CreatedIsCurrent(s, req, now, token);
    } else if t.generation == s.generation {
      GrantEvolves(s, req, now, now, token);
      EvolvedCurrent(s, t);
    } else {
      forall i | 0 <= i < |e| ensures !Busy(e[i]) { assert !Blocks(e[i], now); }
      NothingBusyIsCurrent(t);
    }
  }

  /** A fence request takes the slot's lease out of service before the generation moves. */
  lemma FenceKeepsCurrent(s: ShardAuthority, target: Incarnation, now: nat)
    requires Current(s) && SingleSlot(s.leases)
    ensures Current(RequestFence(s, target, now).0)
  {
    var t := RequestFence(s, target, now).0;
    FenceFrame(s, target, now);
    if t.generation == s.generation {
      EvolvedCurrent(s, t);
    } else {
      var i := IndexWhere(ExpireAll(s.leases, now), (l: Lease) => HoldsMutation(l, target, now));
      forall j | 0 <= j < |t.leases| ensures !(Busy(t.leases[j]) && t.leases[j].state.Active?) {
        assert Evolves(s.leases[j], t.leases[j]) && Busy(s.leases[i]);
      }
      NothingBusyIsCurrent(t);
    }
  }

  lemma StepKeepsCurrent(s: ShardAuthority, op: Op)
    requires Current(s) && SingleSlot(s.leases) && |s.leases| <= MAX_LEASE_HISTORY && CarriesAuthority(op)
    ensures Current(Apply(s, op))
  {
    match op
    case GrantOp(req, now, token) => GrantKeepsCurrent(s, req, now, token);
    case FenceOp(target, now) => FenceKeepsCurrent(s, target, now);
    case EpochOp(epoch) =>
    case _ =>
      OtherOpsFrame(s, op);
      EvolvedCurrent(s, Apply(s, op));
  }

  /** In every run whose grants all carry authority the live, unfenced mutating lease has the record's epoch and
      generation. */
  lemma {:induction false} RunKeepsCurrent(s: ShardAuthority, ops: seq<Op>)
    requires WellFormed(s) && Current(s) && MintsTokens(ops) && AllCarryAuthority(ops)
    ensures WellFormed(Run(s, ops)) && Current(Run(s, ops))
    decreases |ops|
  {
    if ops != [] {
      StepKeepsWellFormed(s, ops[0]);
      StepKeepsCurrent(s, ops[0]);
      RunKeepsCurrent(Apply(s, ops[0]), ops[1..]);
    }
  }

  // ---------------------------------------------------------------- which claims are accepted

  /** The claim accepted for mutation is the slot lease's own, epoch and generation included. */
  lemma AcceptedClaimIsTheLeases(s: ShardAuthority, c: Claim, now: nat) returns (i: nat)
    requires Current(s) && LeasesOk(s) && c.shard == s.shard && ValidateClaim(s, c, Mutating, now).Ok?
    ensures i < |s.leases| && Blocks(s.leases[i], now) && c == ClaimOf(s.leases[i])
  {
    i := AcceptedClaimNamesSlot(s, c, now);
    assert LeaseOk(s.leases[i], s);
  }

  /** No older entry was granted to the same holder with the same token. */
  predicate FirstOfItsToken(leases: seq<Lease>, i: nat)
    requires i < |leases|
  {
    forall j :: 0 <= j < i ==> !(leases[j].holder == leases[i].holder && leases[j].token == leases[i].token)
  }

  /** The claim of the slot's lease is accepted exactly when the lease is unfenced, unexpired and attested, and its
      token was not granted to the same holder before. */
  lemma OwnClaimExactly(s: ShardAuthority, i: nat, now: nat)
    requires Current(s) && SingleSlot(s.leases) && LeasesOk(s) && s.shard != ""
    requires i < |s.leases| && Busy(s.leases[i])
    ensures ValidateClaim(s, ClaimOf(s.leases[i]), Mutating, now).Ok? <==>
            && s.leases[i].state.Active? && now < s.leases[i].expiresAt && s.leases[i].attested
            && FirstOfItsToken(s.leases, i)
  {
    var l := s.leases[i];
    assert LeaseOk(l, s);
    var k := IndexWhere(s.leases, (x: Lease) => x.holder == l.holder && x.token == l.token);
    assert k <= i && FirstOfItsToken(s.leases, i) == (k == i);
    if k < i { assert !Busy(s.leases[k]); }
  }

  // ---------------------------------------------------------------- the exception: a grant of mode None

  /** A request of mode None that finds no lease of its own moves the generation. */
  predicate MovesGeneration(s: ShardAuthority, req: GrantRequest, now: nat) {
    && req.mode.NoAuthority? && CheckRequest(req).Ok? && s.generation < MAX_U64
    && forall i :: 0 <= i < |s.leases| ==> !SameHolderAndMode(s.leases[i], req, now)
  }

  lemma EmptyGrantMoves(s: ShardAuthority, req: GrantRequest, now: nat, token: nat)
    requires req.mode.NoAuthority?
    ensures Grant(s, req, now, now, token).0.epoch == s.epoch
    ensures Grant(s, req, now, now, token).0.generation
         == if MovesGeneration(s, req, now) then s.generation + 1 else s.generation
  {
    var e := ExpireAll(s.leases, now);
    forall i | 0 <= i < |e| ensures SameHolderAndMode(e[i], req, now) == SameHolderAndMode(s.leases[i], req, now) {}
  }

  /** How many entries it drops: the oldest, when it adds one to a full history. */
  function Dropped(s: ShardAuthority): nat {
    if |s.leases| == MAX_LEASE_HISTORY && s.nextLeaseId < MAX_U64 then 1 else 0
  }

  /** Nothing that stays on record is renewed by it. */
  lemma EmptyGrantKeepsEntries(s: ShardAuthority, req: GrantRequest, now: nat, token: nat, i: nat)
    requires MovesGeneration(s, req, now) && |s.leases| <= MAX_LEASE_HISTORY && Dropped(s) <= i < |s.leases|
    ensures i - Dropped(s) < |Grant(s, req, now, now, token).0.leases|
    ensures Grant(s, req, now, now, token).0.leases[i - Dropped(s)] == Expire(s.leases[i], now)
  {
    var e := ExpireAll(s.leases, now);
    if CreatesLease(s, req, now) {
      CreatedAppends(s, req, now, token);
    } else {
      forall j | 0 <= j < |e| ensures !SameHolderAndMode(e[j], req, now) {}
      IndexWhereUnique(e, (l: Lease) => SameHolderAndMode(l, req, now), |e|);
    }
  }

  lemma EmptyGrantDropsSlot(s: ShardAuthority, req: GrantRequest, now: nat, token: nat)
    requires SingleSlot(s.leases) && |s.leases| == MAX_LEASE_HISTORY && Busy(s.leases[0])
    requires MovesGeneration(s, req, now) && Dropped(s) == 1
    ensures Current(Grant(s, req, now, now, token).0)
  {
    var t := Grant(s, req, now, now, token).0;
    var e := ExpireAll(s.leases, now);
    CreatedAppends(s, req, now, token);
    forall j | 0 <= j < |t.leases| ensures !Busy(t.leases[j]) {
      if j < |t.leases| - 1 { assert t.leases[j] == e[j + 1] && !Busy(s.leases[j + 1]); }
    }
    NothingBusyIsCurrent(t);
  }

  /** A grant of mode None leaves a current record with a live, unfenced mutating lease current exactly when it does
      not move the generation or drops that lease from the record. */
  lemma EmptyGrantExact(s: ShardAuthority, req: GrantRequest, now: nat, token: nat, i: nat)
    requires WellFormed(s) && Current(s) && req.mode.NoAuthority?
    requires i < |s.leases| && Blocks(s.leases[i], now) && s.leases[i].state.Active?
    ensures Current(Grant(s, req, now, now, token).0) <==> !MovesGeneration(s, req, now) || i < Dropped(s)
  {
    var t := Grant(s, req, now, now, token).0;
    EmptyGrantMoves(s, req, now, token);
    if !MovesGeneration(s, req, now) {
      GrantEvolves(s, req, now, now, token);
      CreatesExactly(s, req, now, token);
      EvolvedCurrent(s, t);
    } else if i < Dropped(s) {
      EmptyGrantDropsSlot(s, req, now, token);
    } else {
      EmptyGrantKeepsEntries(s, req, now, token, i);
    }
  }

  /** What decides a claim for mutation once the lease it names is found. */
  lemma ValidatedAt(s: ShardAuthority, c: Claim, i: nat, now: nat)
    requires i < |s.leases| && s.leases[i].holder == c.incarnation && s.leases[i].token == c.token
    requires FirstOfItsToken(s.leases, i) && c.Valid() && c.epoch == s.epoch
    ensures c.generation != s.generation ==> ValidateClaim(s, c, Mutating, now) == Err(StaleGeneration)
    ensures c.generation == s.generation ==>
      (ValidateClaim(s, c, Mutating, now).Ok? <==>
       EffectiveState(s.leases[i], now).Active? && s.leases[i].attested && s.leases[i].mode.Mutating?)
  {
    IndexWhereUnique(s.leases, (x: Lease) => x.holder == c.incarnation && x.token == c.token, i);
  }

  /** Such a grant to anyone refuses the incumbent's own claim from then on, while a claim with the incumbent's holder
      and token and the new generation is accepted. */
  lemma EmptyGrantStalesIncumbent(s: ShardAuthority, req: GrantRequest, now: nat, token: nat, i: nat)
    requires MovesGeneration(s, req, now) && |s.leases| <= MAX_LEASE_HISTORY
    requires Dropped(s) <= i < |s.leases| && FirstOfItsToken(s.leases, i)
    requires ValidateClaim(s, ClaimOf(s.leases[i]), Mutating, now).Ok?
    ensures var t := Grant(s, req, now, now, token).0;
            && ValidateClaim(t, ClaimOf(s.leases[i]), Mutating, now) == Err(StaleGeneration)
            && ValidateClaim(t, ClaimOf(s.leases[i]).(generation := t.generation), Mutating, now).Ok?
  {
    var t := Grant(s, req, now, now, token).0;
    var c, d := ClaimOf(s.leases[i]), Dropped(s);
    ValidatedAt(s, c, i, now);
    EmptyGrantMoves(s, req, now, token);
    forall j | d <= j <= i ensures j - d < |t.leases| && t.leases[j - d] == Expire(s.leases[j], now) {
      EmptyGrantKeepsEntries(s, req, now, token, j);
    }
    ShiftedFirst(s.leases, t.leases, d, i, now);
    ValidatedAt(t, c, i - d, now);
    ValidatedAt(t, c.(generation := t.generation), i - d, now);
  }

  lemma ShiftedFirst(a: seq<Lease>, b: seq<Lease>, d: nat, i: nat, now: nat)
    requires d <= i < |a| && FirstOfItsToken(a, i) && i - d < |b|
    requires forall j :: d <= j <= i ==> b[j - d] == Expire(a[j], now)
    ensures FirstOfItsToken(b, i - d)
  {
    forall k | 0 <= k < i - d ensures !(b[k].holder == b[i - d].holder && b[k].token == b[i - d].token) {
      assert b[k + d - d] == Expire(a[k + d], now) && b[i - d] == Expire(a[i], now);
    }
  }
}
