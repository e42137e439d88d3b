/** Where the single-writer guarantee ends: for each assumption of the step system, exactly when dropping it breaks the
    invariant, and a run of the runtime's own steps that breaks it. */
module SingleWriterLimits {
  import opened Common
  import opened Authority
  import opened NodeAuthority
  import opened SingleWriter
  import R = AuthorityRuns

  // ---------------------------------------------------------------- deliveries

  /** A node that accepts writes while the last lease on record names someone else is not vouched for. */
  lemma StrangerBreaksInv(s: State, who: Who)
    requires Accepts(NodeAt(s, who), s.now)
    requires |s.registry.leases| > 0 && s.registry.leases[|s.registry.leases| - 1].holder != NodeAt(s, who).incarnation
    ensures !Inv(s)
  {
  }

  lemma GrantedIsLast(s: State, holder: Incarnation, token: nat)
    requires RegistryOk(s) && GrantOutcome(s, holder, token).1.Ok?
    ensures var t := GrantOutcome(s, holder, token).0; |t.leases| > 0 && t.leases[|t.leases| - 1].holder == holder
  {
    if GrantOutcome(s, holder, token).0.nextLeaseId == s.registry.nextLeaseId {
      RenewalIsLast(s.registry, Request(s, holder), s.now, token);
    } else {
      NewLeaseIsLast(s.registry, Request(s, holder), s.now, token);
    }
  }

  lemma DeliveredAccepts(s: State, who: Who, l: Lease)
    requires Delivered(s, who, l).1.Ok? && s.now + MAX_LEASE_TTL_MS <= MAX_U64 && 0 < s.ttl <= MAX_LEASE_TTL_MS
    ensures Accepts(Delivered(s, who, l).0, s.now)
    ensures Delivered(s, who, l).0.incarnation == NodeAt(s, who).incarnation
  {
  }

  /** A lease, new or renewed, delivered to the node at `who` leaves that node vouched for exactly when the
      incarnation running there is the one the lease names. */
  lemma DeliveryExact(s: State, who: Who, holder: Incarnation, token: nat)
    requires Inv(s) && token != 0 && holder.component == NodeAt(s, who).incarnation.component
    requires GrantOutcome(s, holder, token).1.Ok? && Delivered(s, who, GrantOutcome(s, holder, token).1.value).1.Ok?
    ensures Inv(GrantStep(s, who, holder, token, true, false)) <==> holder == NodeAt(s, who).incarnation
  {
    if holder == NodeAt(s, who).incarnation {
      GrantKeepsInv(s, who, holder, token, true, false);
    } else {
      GrantedIsLast(s, holder, token);
      DeliveredAccepts(s, who, GrantOutcome(s, holder, token).1.value);
      StrangerBreaksInv(GrantStep(s, who, holder, token, true, false), who);
    }
  }

  // ---------------------------------------------------------------- re-attestation

  /** The slot's lease is last on record, under the holder the view reports. */
  lemma CurrentIsLast(s: ShardAuthority, now: nat)
    requires R.SingleSlot(s.leases) && R.SlotIsLast(s) && ViewOf(s, now).mutating.Some?
    ensures |s.leases| > 0 && ViewOf(s, now).mutating == Some(s.leases[|s.leases| - 1])
    ensures Blocks(s.leases[|s.leases| - 1], now)
  {
    R.ViewReportsSlot(s, now);
    if forall i :: 0 <= i < |s.leases| ==> !Blocks(s.leases[i], now) { assert false; }
    var i :| 0 <= i < |s.leases| && Blocks(s.leases[i], now);
    assert i == |s.leases| - 1;
  }

  lemma ReattestKeepsLastHolder(s: ShardAuthority, holder: Incarnation, token: nat, now: nat)
    requires |s.leases| > 0
    ensures var t := Reattest(s, holder, token, now).0;
            |t.leases| > 0 && t.leases[|t.leases| - 1].holder == s.leases[|s.leases| - 1].holder
  {
    R.ReattestFrame(s, holder, token, now);
    assert R.Evolves(s.leases[|s.leases| - 1], Reattest(s, holder, token, now).0.leases[|s.leases| - 1]);
  }

  /** A re-attestation decided on a remembered report, and confirmed by whatever runs at `who` now, keeps the invariant
      exactly when the incarnation the report named still runs there, or what runs there does not accept mutating
      writes even with its lease confirmed. */
  lemma ReattestExact(s: State, who: Who, replied: bool)
    requires Inv(s) && ReattestDecided(s, who)
    requires ReattestNode(NodeAt(s, who), ViewOf(s.registry, s.now).mutating.value.token, s.now).1.Ok?
    ensures Inv(ReattestStep(s, who, replied)) <==>
            || NodeAt(s, who).incarnation == ReportAt(s, who).value.incarnation
            || OutOfService(NodeAt(s, who)) || !NodeAt(s, who).lease.value.mode.Mutating?
  {
    var n := NodeAt(s, who);
    if n.incarnation == ReportAt(s, who).value.incarnation {
      ReattestKeepsInv(s, who, replied);
    } else if OutOfService(n) || !n.lease.value.mode.Mutating? {
      HarmlessReattestKeepsInv(s, who, replied);
    } else {
      StaleReattestBreaksInv(s, who, replied);
    }
  }

  lemma StaleReattestBreaksInv(s: State, who: Who, replied: bool)
    requires R.SingleSlot(s.registry.leases) && R.SlotIsLast(s.registry) && ViewOf(s.registry, s.now).mutating.Some?
    requires NodeAt(s, who).incarnation != ViewOf(s.registry, s.now).mutating.value.holder
    requires ReattestNode(NodeAt(s, who), ViewOf(s.registry, s.now).mutating.value.token, s.now).1.Ok?
    requires !OutOfService(NodeAt(s, who)) && NodeAt(s, who).lease.value.mode.Mutating?
    ensures !Inv(ReattestStep(s, who, replied))
    ensures Accepts(NodeAt(ReattestStep(s, who, replied), who), s.now)
  {
    var current := ViewOf(s.registry, s.now).mutating.value;
    CurrentIsLast(s.registry, s.now);
    ReattestKeepsLastHolder(s.registry, current.holder, current.token, s.now);
    StrangerBreaksInv(ReattestStep(s, who, replied), who);
  }

  // ---------------------------------------------------------------- withdrawals

  /** Withdrawing a renewal whose delivery failed leaves the node vouched for exactly when the node was not acting on
      the lease any more. */
  lemma WithdrawnRenewalExact(s: State, who: Who, holder: Incarnation, token: nat)
    requires Inv(s) && token != 0 && holder == NodeAt(s, who).incarnation
    requires GrantOutcome(s, holder, token).1.Ok?
    requires GrantOutcome(s, holder, token).0.nextLeaseId == s.registry.nextLeaseId
    ensures Inv(GrantStep(s, who, holder, token, false, true)) <==> !Accepts(NodeAt(s, who), s.now)
  {
    if !Accepts(NodeAt(s, who), s.now) {
      RenewalKeepsInv(s, who, holder, token, false, true);
    } else {
      WithdrawnRenewalFreesSlot(s, who, token);
    }
  }

  /** After a withdrawn renewal the slot is free. */
  lemma WithdrawnRenewalFreesSlot(s: State, who: Who, token: nat)
    requires RegistryOk(s) && token != 0
    requires GrantOutcome(s, NodeAt(s, who).incarnation, token).1.Ok?
    requires GrantOutcome(s, NodeAt(s, who).incarnation, token).0.nextLeaseId == s.registry.nextLeaseId
    ensures var t := GrantStep(s, who, NodeAt(s, who).incarnation, token, false, true);
            && (forall i :: 0 <= i < |t.registry.leases| ==> !R.Busy(t.registry.leases[i]))
            && t.registry.generation == s.registry.generation && t.registry.nextLeaseId == s.registry.nextLeaseId
            && t.registry.epoch == s.registry.epoch && |t.registry.leases| == |s.registry.leases|
  {
    var holder := NodeAt(s, who).incarnation;
    var (t, r) := GrantOutcome(s, holder, token);
    RenewalIsLast(s.registry, Request(s, holder), s.now, token);
    RegistryStep(s, R.GrantOp(Request(s, holder), s.now, token));
    R.FirstWithIdIs(t.leases, t.nextLeaseId, |t.leases| - 1);
  }

  /** A mutating grant on a record with no live mutating lease creates one. */
  lemma FreeSlotIsGranted(s: ShardAuthority, req: GrantRequest, now: nat, token: nat)
    requires req.mode.Mutating? && CheckRequest(req).Ok? && s.generation < MAX_U64 && s.nextLeaseId < MAX_U64
    requires forall i :: 0 <= i < |s.leases| ==> !R.Busy(s.leases[i])
    ensures Grant(s, req, now, now, token).1.Ok?
    ensures Grant(s, req, now, now, token).1.value == NewLease(s.(generation := s.generation + 1), req, now, token)
    ensures Grant(s, req, now, now, token).0.nextLeaseId == s.nextLeaseId + 1
    ensures Grant(s, req, now, now, token).0.generation == s.generation + 1
  {
    var e := ExpireAll(s.leases, now);
    forall i | 0 <= i < |e| ensures !Blocks(e[i], now) {}
    IndexWhereUnique(e, (l: Lease) => Blocks(l, now), |e|);
  }

  /** When the renewal of an accepting node is withdrawn, the next grant to the other node leaves both accepting. */
  lemma WithdrawnRenewalAdmitsTwoWriters(s: State, who: Who, token: nat, next: nat)
    requires Inv(s) && token != 0 && next != 0 && Accepts(NodeAt(s, who), s.now)
    requires !NodeAt(s, Other(who)).lifecycle.Retired?
    requires s.registry.generation < MAX_U64 && s.registry.nextLeaseId < MAX_U64
    requires GrantOutcome(s, NodeAt(s, who).incarnation, token).1.Ok?
    requires GrantOutcome(s, NodeAt(s, who).incarnation, token).0.nextLeaseId == s.registry.nextLeaseId
    ensures var t := GrantStep(s, who, NodeAt(s, who).incarnation, token, false, true);
            var u := GrantStep(t, Other(who), NodeAt(s, Other(who)).incarnation, next, true, false);
            Accepts(u.source, u.now) && Accepts(u.target, u.now)
  {
    var t := GrantStep(s, who, NodeAt(s, who).incarnation, token, false, true);
    WithdrawnRenewalFreesSlot(s, who, token);
    FreeSlotIsGranted(t.registry, Request(t, NodeAt(s, Other(who)).incarnation), t.now, next);
  }

  // ---------------------------------------------------------------- lost replies

  /** A grant that the node was asked to take, whose reply did not arrive, and which was therefore revoked. */
  function LostReplyStep(s: State, who: Who, holder: Incarnation, token: nat): State {
    var (registry, r) := GrantOutcome(s, holder, token);
    if r.Err? then s.(registry := registry)
    else WithNode(s.(registry := Revoke(registry, r.value.id).0), who, Delivered(s, who, r.value).0)
  }

  /** Once the lease just granted is revoked, the slot is free. */
  lemma RevokedGrantFreesSlot(s: State, holder: Incarnation, token: nat)
    requires RegistryOk(s) && token != 0 && GrantOutcome(s, holder, token).1.Ok?
    ensures var (t, r) := GrantOutcome(s, holder, token);
            forall l :: l in Revoke(t, r.value.id).0.leases ==> !R.Busy(l)
  {
    var (t, r) := GrantOutcome(s, holder, token);
    RegistryStep(s, R.GrantOp(Request(s, holder), s.now, token));
    if t.nextLeaseId == s.registry.nextLeaseId {
      RenewalIsLast(s.registry, Request(s, holder), s.now, token);
    } else {
      NewLeaseIsLast(s.registry, Request(s, holder), s.now, token);
    }
    R.FirstWithIdIs(t.leases, t.nextLeaseId, |t.leases| - 1);
  }

  lemma WriterNeedsSlot(s: State, who: Who)
    requires Accepts(NodeAt(s, who), s.now) && forall l :: l in s.registry.leases ==> !R.Busy(l)
    ensures !Inv(s)
  {
  }

  /** When the reply to a grant is lost, revoking the lease keeps the invariant exactly when the node had refused the
      lease; a node that took it goes on accepting writes with the slot free. */
  lemma LostReplyExact(s: State, who: Who, token: nat)
    requires Inv(s) && token != 0 && GrantOutcome(s, NodeAt(s, who).incarnation, token).1.Ok?
    ensures Inv(LostReplyStep(s, who, NodeAt(s, who).incarnation, token)) <==> NodeAt(s, who).lifecycle.Retired?
  {
    var holder := NodeAt(s, who).incarnation;
    var (t, r) := GrantOutcome(s, holder, token);
    if NodeAt(s, who).lifecycle.Retired? {
      GrantKeepsInv(s, who, holder, token, false, true);
    } else {
      RevokedGrantFreesSlot(s, holder, token);
      DeliveredAccepts(s, who, r.value);
      WriterNeedsSlot(LostReplyStep(s, who, holder, token), who);
    }
  }

  /** The lease of an accepting node is renewed by a grant to it, as long as it is not being fenced. */
  lemma AcceptingIsRenewed(s: State, who: Who, token: nat)
    requires Inv(s) && Accepts(NodeAt(s, who), s.now)
    requires |s.registry.leases| > 0 && s.registry.leases[|s.registry.leases| - 1].state.Active?
    ensures GrantOutcome(s, NodeAt(s, who).incarnation, token).1.Ok?
    ensures GrantOutcome(s, NodeAt(s, who).incarnation, token).0.nextLeaseId == s.registry.nextLeaseId
  {
    NodeAndReport(s, who);
    LastIsRenewed(s.registry, Request(s, NodeAt(s, who).incarnation), s.now, token);
  }

  lemma LastIsRenewed(s: ShardAuthority, req: GrantRequest, now: nat, token: nat)
    requires R.SlotIsLast(s) && |s.leases| > 0 && req.mode.Mutating? && CheckRequest(req).Ok?
    requires R.Busy(s.leases[|s.leases| - 1]) && s.leases[|s.leases| - 1].state.Active?
    requires now < s.leases[|s.leases| - 1].expiresAt && s.leases[|s.leases| - 1].holder == req.holder
    ensures Grant(s, req, now, now, token).1.Ok? && Grant(s, req, now, now, token).0.nextLeaseId == s.nextLeaseId
  {
    var e, n := ExpireAll(s.leases, now), |s.leases| - 1;
    assert e[n] == s.leases[n] && Blocks(e[n], now);
    forall j | 0 <= j < n ensures !Blocks(e[j], now) { assert !R.Busy(s.leases[j]); }
    IndexWhereUnique(e, (l: Lease) => Blocks(l, now), n);
  }

  // ---------------------------------------------------------------- runs of the runtime's own steps

  /** The first grant of a fresh shard, delivered to the source. */
  lemma FirstGrant(s: State, token: nat)
    requires Initial(s) && token != 0 && !s.source.lifecycle.Retired?
    ensures Enabled(s, GrantTo(Source, s.source.incarnation, token, true, false))
    ensures var a := GrantStep(s, Source, s.source.incarnation, token, true, false);
            && Inv(a) && Accepts(a.source, a.now) && a.target == s.target
            && a.source.incarnation == s.source.incarnation
            && a.source.retiredMarker == s.source.retiredMarker && a.source.lease.value.token == token
            && a.sourceReport == s.sourceReport && a.now == s.now && a.ttl == s.ttl
            && |a.registry.leases| == 1 && a.registry.fences == [] && a.registry.nextFenceId == 1
            && a.registry.generation == 2 && a.registry.nextLeaseId == 2
            && a.registry.leases[0]
            == NewLease(s.registry.(generation := 2), Request(s, s.source.incarnation), s.now, token)
  {
    InitialInv(s);
    FreeSlotIsGranted(s.registry, Request(s, s.source.incarnation), s.now, token);
    NewGrantKeepsInv(s, Source, s.source.incarnation, token, true, false);
  }

  /** The controller restarts and asks the source again. */
  lemma ReloadAndObserve(s: State)
    requires Inv(s) && Accepts(s.source, s.now) && |s.registry.leases| == 1
    requires s.registry.leases[0].state.Active? && s.registry.leases[0].token == s.source.lease.value.token
    ensures var b := Step(Step(s, ReloadController), Observe(Source));
            && Inv(b) && b.source == s.source && b.now == s.now && ReattestDecided(b, Source)
            && b.sourceReport == Some(ReportOf(s.source, s.now)) && |b.registry.leases| == 1
  {
    ReloadKeepsInv(s);
    ReloadedRegistry(s);
    var a := Step(s, ReloadController);
    ObserveKeepsInv(a, Source);
    AcceptingBlocks(a.registry, a.source, a.now);
    R.ViewReportsSlot(a.registry, a.now);
  }

  /** The source restarts and serves before the re-attestation that was decided on its report reaches it. */
  lemma RestartBeforeReattest(s: State, uuid: nat)
    requires Inv(s) && ReattestDecided(s, Source) && Accepts(s.source, s.now) && !s.source.retiredMarker && uuid != 0
    requires s.sourceReport == Some(ReportOf(s.source, s.now))
    ensures var e := Step(Step(s, Restart(Source, uuid)), Serve(Source));
            && Inv(e) && ReattestDecided(e, Source) && e.source.incarnation != s.source.incarnation
            && var f := ReattestStep(e, Source, true);
            && Accepts(f.source, f.now) && !Inv(f)
            && ViewOf(s.registry, s.now).mutating.value.holder != f.source.incarnation
  {
    var e := Step(Step(s, Restart(Source, uuid)), Serve(Source));
    NodeEventKeepsInv(s, Restart(Source, uuid));
    NodeEventKeepsInv(Step(s, Restart(Source, uuid)), Serve(Source));
    StaleReattestBreaksInv(e, Source, true);
  }

  /** From every initial state: a grant, a controller restart, a report, a restart of the node, and the re-attestation
      decided on that report. All but the last are steps of the system; the last leaves a node accepting writes that is
      not the incarnation the registry's lease names. */
  lemma StaleReattestIsReached(s: State, token: nat, uuid: nat)
    requires Initial(s) && token != 0 && uuid != 0 && !s.source.lifecycle.Retired? && !s.source.retiredMarker
    ensures var events := [GrantTo(Source, s.source.incarnation, token, true, false), ReloadController,
                           Observe(Source), Restart(Source, uuid), Serve(Source)];
            && Legal(s, events)
            && var e := RunOf(s, events);
            && ReattestDecided(e, Source)
            && var f := ReattestStep(e, Source, true);
            Accepts(f.source, f.now) && !Inv(f)
  {
    var first := GrantTo(Source, s.source.incarnation, token, true, false);
    var a := Step(s, first);
    FirstGrant(s, token);
    ReloadAndObserve(a);
    var b := Step(Step(a, ReloadController), Observe(Source));
    RestartBeforeReattest(b, uuid);
    RunOfFive(s, first, ReloadController, Observe(Source), Restart(Source, uuid), Serve(Source));
  }

  lemma RunOfFive(s: State, a: Event, b: Event, c: Event, d: Event, e: Event)
    requires Enabled(s, a) && Enabled(Step(s, a), b) && Enabled(Step(Step(s, a), b), c)
    requires Enabled(Step(Step(Step(s, a), b), c), d) && Enabled(Step(Step(Step(Step(s, a), b), c), d), e)
    ensures Legal(s, [a, b, c, d, e]) && RunOf(s, [a, b, c, d, e]) == Step(Step(Step(Step(Step(s, a), b), c), d), e)
  {
    RunOfFour(Step(s, a), b, c, d, e);
    assert [a, b, c, d, e][1..] == [b, c, d, e];
  }

  lemma RunOfFour(s: State, a: Event, b: Event, c: Event, d: Event)
    requires Enabled(s, a) && Enabled(Step(s, a), b) && Enabled(Step(Step(s, a), b), c)
    requires Enabled(Step(Step(Step(s, a), b), c), d)
    ensures Legal(s, [a, b, c, d]) && RunOf(s, [a, b, c, d]) == Step(Step(Step(Step(s, a), b), c), d)
  {
    var t := Step(Step(s, a), b);
    assert [a, b, c, d][1..] == [b, c, d] && [b, c, d][1..] == [c, d] && [c, d][1..] == [d] && [d][1..] == [];
    assert Legal(Step(t, c), [d]) && RunOf(Step(t, c), [d]) == Step(Step(t, c), d);
    assert Legal(t, [c, d]) && RunOf(t, [c, d]) == Step(Step(t, c), d);
  }

  // ---------------------------------------------------------------- two writers

  /** Fencing the only lease on record: asked, delivered and acknowledged. */
  lemma OnlyLeaseIsFenced(s: ShardAuthority, target: Incarnation, now: nat)
    requires |s.leases| == 1 && s.fences == [] && s.nextFenceId == 1 && s.generation < MAX_U64 && target.Valid()
    requires R.Busy(s.leases[0]) && s.leases[0].state.Active? && now < s.leases[0].expiresAt
    requires s.leases[0].holder == target
    ensures var t := RequestFence(s, target, now).0;
            && t.generation == s.generation + 1 && t.nextLeaseId == s.nextLeaseId
            && var u := AcknowledgeFence(t, target, 1, now).0;
            && u.generation == t.generation && u.nextLeaseId == s.nextLeaseId
            && |u.leases| == 1 && u.leases[0].state.Fenced?
  {
    var e := ExpireAll(s.leases, now);
    assert e[0] == s.leases[0];
    IndexWhereUnique(e, (l: Lease) => HoldsMutation(l, target, now), 0);
    var t := RequestFence(s, target, now).0;
    assert |t.fences| == 1 && t.fences[0].id == 1 && t.fences[0].target == target && !t.fences[0].acknowledged;
    assert t.fences[0].fencedLease == t.leases[0].id && t.leases[0].state.Fencing?;
    IndexWhereUnique(t.fences, (f: Fence) => f.id == 1, 0);
  }

  /** The steps that pass the slot on: the source is granted and fenced, then the target is granted. */
  function TransferEvents(source: Incarnation, target: Incarnation, first: nat, second: nat): seq<Event> {
    [GrantTo(Source, source, first, true, false), AskFence(source), DeliverFence(Source, source, 1, true),
     GrantTo(Target, target, second, true, false)]
  }

  /** The state in which the second grant is made. */
  function FencedState(s: State, first: nat): State {
    var source := s.source.incarnation;
    var a := Step(s, GrantTo(Source, source, first, true, false));
    Step(Step(a, AskFence(source)), DeliverFence(Source, source, 1, true))
  }

  lemma FencedStateIsFree(s: State, first: nat)
    requires Initial(s) && first != 0 && !s.source.lifecycle.Retired?
    ensures var c := FencedState(s, first);
            && Inv(c) && c.target == s.target
            && c.source.incarnation == s.source.incarnation && c.source.lifecycle.FencedOff?
            && c.registry.generation == 3 && c.registry.nextLeaseId == 2
            && (forall i :: 0 <= i < |c.registry.leases| ==> !R.Busy(c.registry.leases[i]))
  {
    FirstGrant(s, first);
    FencedOut(Step(s, GrantTo(Source, s.source.incarnation, first, true, false)), s.source.incarnation);
  }

  lemma TransferIsLegal(s: State, first: nat, second: nat)
    requires Enabled(s, GrantTo(Source, s.source.incarnation, first, true, false))
    requires Enabled(FencedState(s, first), GrantTo(Target, s.target.incarnation, second, true, false))
    ensures var events := TransferEvents(s.source.incarnation, s.target.incarnation, first, second);
            && Legal(s, events)
            && RunOf(s, events)
            == Step(FencedState(s, first), GrantTo(Target, s.target.incarnation, second, true, false))
  {
    var source := s.source.incarnation;
    RunOfFour(s, GrantTo(Source, source, first, true, false), AskFence(source), DeliverFence(Source, source, 1, true),
              GrantTo(Target, s.target.incarnation, second, true, false));
  }

  /** The slot has passed, and only the target accepts. */
  lemma Transferred(s: State, first: nat, second: nat)
    requires Initial(s) && first != 0 && second != 0
    requires !s.source.lifecycle.Retired? && !s.target.lifecycle.Retired?
    ensures var events := TransferEvents(s.source.incarnation, s.target.incarnation, first, second);
            && Legal(s, events)
            && var d := RunOf(s, events);
            && Inv(d) && Accepts(d.target, d.now) && d.target.incarnation == s.target.incarnation
            && d.source.incarnation == s.source.incarnation && d.source.lifecycle.FencedOff?
            && d.registry.generation == 4 && d.registry.nextLeaseId == 3
            && |d.registry.leases| > 0 && d.registry.leases[|d.registry.leases| - 1].state.Active?
  {
    FirstGrant(s, first);
    FencedStateIsFree(s, first);
    SecondGrant(FencedState(s, first), second);
    TransferIsLegal(s, first, second);
  }

  /** The only lease's holder is asked to fence, does, and the fence is acknowledged. */
  lemma FencedOut(a: State, source: Incarnation)
    requires Inv(a) && Accepts(a.source, a.now) && a.source.incarnation == source
    requires |a.registry.leases| == 1 && a.registry.fences == [] && a.registry.nextFenceId == 1
    requires a.registry.generation == 2 && a.registry.nextLeaseId == 2 && a.registry.leases[0].state.Active?
    ensures var c := Step(Step(a, AskFence(source)), DeliverFence(Source, source, 1, true));
            && Inv(c) && c.target == a.target && c.source.incarnation == source && c.source.lifecycle.FencedOff?
            && c.registry.generation == 3 && c.registry.nextLeaseId == 2
            && (forall i :: 0 <= i < |c.registry.leases| ==> !R.Busy(c.registry.leases[i]))
  {
    AskFenceKeepsInv(a, source);
    DeliverFenceKeepsInv(Step(a, AskFence(source)), Source, source, 1, true);
    AcceptingBlocks(a.registry, a.source, a.now);
    OnlyLeaseIsFenced(a.registry, source, a.now);
  }

  lemma SecondGrant(c: State, token: nat)
    requires Inv(c) && token != 0 && !c.target.lifecycle.Retired?
    requires c.registry.generation < MAX_U64 && c.registry.nextLeaseId < MAX_U64
    requires forall i :: 0 <= i < |c.registry.leases| ==> !R.Busy(c.registry.leases[i])
    ensures Enabled(c, GrantTo(Target, c.target.incarnation, token, true, false))
    ensures var d := Step(c, GrantTo(Target, c.target.incarnation, token, true, false));
            && Inv(d) && Accepts(d.target, d.now)
            && d.target.incarnation == c.target.incarnation && d.source == c.source
            && d.registry.generation == c.registry.generation + 1
            && d.registry.nextLeaseId == c.registry.nextLeaseId + 1
            && |d.registry.leases| > 0 && d.registry.leases[|d.registry.leases| - 1].state.Active?
  {
    var holder := c.target.incarnation;
    FreeSlotIsGranted(c.registry, Request(c, holder), c.now, token);
    NewGrantKeepsInv(c, Target, holder, token, true, false);
    NewLeaseIsLast(c.registry, Request(c, holder), c.now, token);
  }

  /** A retried transfer renews the target's lease, its delivery fails and the lease is revoked; the campaign is then
      aborted and the source is granted authority. */
  function RetriedThenAborted(d: State, again: nat, restored: nat): State {
    var retried := GrantStep(d, Target, d.target.incarnation, again, false, true);
    GrantStep(retried, Source, d.source.incarnation, restored, true, false)
  }

  lemma RetryAndAbortAdmitTwoWriters(d: State, again: nat, restored: nat, after: State)
    requires Inv(d) && Accepts(d.target, d.now) && d.source.lifecycle.FencedOff? && again != 0 && restored != 0
    requires d.registry.generation == 4 && d.registry.nextLeaseId == 3
    requires |d.registry.leases| > 0 && d.registry.leases[|d.registry.leases| - 1].state.Active?
    requires after == RetriedThenAborted(d, again, restored)
    ensures Accepts(after.source, after.now) && Accepts(after.target, after.now)
  {
    AcceptingIsRenewed(d, Target, again);
    WithdrawnRenewalAdmitsTwoWriters(d, Target, again, restored);
  }

  /** From every initial state with neither node retired. The authority is transferred and delivered, but the step
      after the delivery fails, so the controller tries the transfer again; this time the delivery fails and the
      renewed lease is revoked; the campaign is then aborted and the predecessor is granted authority again. Both nodes
      accept mutating writes. */
  lemma TwoWritersAfterFailedTransfer(s: State, first: nat, second: nat, again: nat, restored: nat, after: State)
    requires Initial(s) && first != 0 && second != 0 && again != 0 && restored != 0
    requires !s.source.lifecycle.Retired? && !s.target.lifecycle.Retired?
    requires var events := TransferEvents(s.source.incarnation, s.target.incarnation, first, second);
             after == RetriedThenAborted(RunOf(s, events), again, restored)
    ensures Legal(s, TransferEvents(s.source.incarnation, s.target.incarnation, first, second))
    ensures Accepts(after.source, after.now) && Accepts(after.target, after.now)
  {
    Transferred(s, first, second);
    var events := TransferEvents(s.source.incarnation, s.target.incarnation, first, second);
    RetryAndAbortAdmitTwoWriters(RunOf(s, events), again, restored, after);
  }
}
