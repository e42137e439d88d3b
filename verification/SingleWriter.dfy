/** The controller's registry together with the two nodes of a handoff and one shared clock, as a step
    system: what the controller does between two saves is one step, and node restarts, time and lost
    replies may happen between any two steps. The result is that at most one node ever accepts
    mutating writes. */
module SingleWriter {
  import opened Common
  import opened Authority
  import opened NodeAuthority
  import R = AuthorityRuns

  datatype Who = Source | Target

  /** What the controller remembers of a node since it last asked it. */
  datatype Report = Report(incarnation: Incarnation, lifecycle: Lifecycle, hasAuthority: bool, token: nat)

  function ReportOf(n: NodeState, now: nat): Report {
    Report(n.incarnation, n.lifecycle, HasAuthority(n, now), if n.lease.Some? then n.lease.value.token else 0)
  }

  datatype State = State(
    now: nat, ttl: nat, registry: ShardAuthority, source: NodeState, target: NodeState,
    sourceReport: Option<Report>, targetReport: Option<Report>)

  datatype Event =
    | Tick(elapsed: nat)
    | Restart(who: Who, uuid: nat)
    | Serve(who: Who)
    | Observe(who: Who)
    | GrantTo(who: Who, holder: Incarnation, token: nat, delivered: bool, withdraw: bool)
    | ReattestAt(who: Who, replied: bool)
    | AskFence(target: Incarnation)
    | DeliverFence(who: Who, target: Incarnation, fence: nat, replied: bool)
    | FenceByReport(who: Who, target: Incarnation, fence: nat)
    | RetireAt(who: Who)
    | RevokeReplaced(who: Who)
    | ReloadController
    | ExpireRegistry

  function NodeAt(s: State, who: Who): NodeState { if who.Source? then s.source else s.target }

  function Other(who: Who): Who { if who.Source? then Target else Source }

  function WithNode(s: State, who: Who, n: NodeState): State {
    if who.Source? then s.(source := n) else s.(target := n)
  }

  function ReportAt(s: State, who: Who): Option<Report> {
    if who.Source? then s.sourceReport else s.targetReport
  }

  function WithReport(s: State, who: Who, r: Report): State {
    if who.Source? then s.(sourceReport := Some(r)) else s.(targetReport := Some(r))
  }

  function Forgotten(s: State): State { s.(sourceReport := None, targetReport := None) }

  function Request(s: State, holder: Incarnation): GrantRequest { GrantRequest(holder, Mutating, s.ttl) }

  function GrantOutcome(s: State, holder: Incarnation, token: nat): (ShardAuthority, Result<Lease>) {
    Grant(s.registry, Request(s, holder), s.now, s.now, token)
  }

  function Delivered(s: State, who: Who, l: Lease): (NodeState, Status) {
    GrantNode(NodeAt(s, who), l.shard, l.epoch, l.generation, l.token, Mutating, s.ttl, s.now)
  }

  /** A strictly greater boot counter of the same component. */
  predicate ProvablyReplaced(recorded: Incarnation, reported: Incarnation) {
    && recorded.Valid() && reported.Valid() && recorded.component == reported.component
    && recorded != reported && reported.boot > recorded.boot
  }

  /** Acknowledges every fence of the list that still waits for `holder`. */
  function AcknowledgeAll(s: ShardAuthority, fences: seq<Fence>, holder: Incarnation, now: nat): ShardAuthority
    decreases |fences|
  {
    if fences == [] then s
    else
      var rest := fences[1..];
      if Outstanding(fences[0], holder)
      then AcknowledgeAll(AcknowledgeFence(s, holder, fences[0].id, now).0, rest, holder, now)
      else AcknowledgeAll(s, rest, holder, now)
  }

  // ---------------------------------------------------------------- steps

  /** A grant (new or renewal) together with its delivery. A grant that was not delivered is either left in
      place or withdrawn by revoking the lease. */
  function GrantStep(s: State, who: Who, holder: Incarnation, token: nat, delivered: bool, withdraw: bool): State {
    var (registry, r) := GrantOutcome(s, holder, token);
    if r.Err? then s.(registry := registry)
    else if delivered then WithNode(s.(registry := registry), who, Delivered(s, who, r.value).0)
    else if withdraw then s.(registry := Revoke(registry, r.value.id).0)
    else s.(registry := registry)
  }

  function DeliverFenceStep(s: State, who: Who, target: Incarnation, fence: nat, replied: bool): State {
    var (node, status) := FenceNode(NodeAt(s, who), target, fence);
    var t := WithNode(s, who, node);
    if status.Ok? && replied then t.(registry := AcknowledgeFence(s.registry, target, fence, s.now).0) else t
  }

  /** The current holder's token is presented to the node at `who`; the lease is attested if the node confirms. */
  function ReattestStep(s: State, who: Who, replied: bool): State {
    var current := ViewOf(s.registry, s.now).mutating;
    if current.None? then s
    else
      var (node, status) := ReattestNode(NodeAt(s, who), current.value.token, s.now);
      var t := WithNode(s, who, node);
      if status.Ok? && replied
      then t.(registry := Reattest(s.registry, current.value.holder, current.value.token, s.now).0)
      else t
  }

  function RevokeReplacedStep(s: State): State {
    var slot := ViewOf(s.registry, s.now).slotHolder;
    if slot.None? then s
    else s.(registry := Revoke(AcknowledgeAll(s.registry, s.registry.fences, slot.value.holder, s.now),
                              slot.value.id).0)
  }

  function Step(s: State, e: Event): State {
    match e
    case Tick(elapsed) => s.(now := s.now + elapsed)
    case Restart(who, uuid) => WithNode(s, who, Reopened(NodeAt(s, who), uuid))
    case Serve(who) => WithNode(s, who, StartServing(NodeAt(s, who)))
    case Observe(who) => WithReport(s, who, ReportOf(NodeAt(s, who), s.now))
    case GrantTo(who, holder, token, delivered, withdraw) => GrantStep(s, who, holder, token, delivered, withdraw)
    case ReattestAt(who, replied) => ReattestStep(s, who, replied)
    case AskFence(target) => Forgotten(s.(registry := RequestFence(s.registry, target, s.now).0))
    case DeliverFence(who, target, fence, replied) => DeliverFenceStep(s, who, target, fence, replied)
    case FenceByReport(who, target, fence) => s.(registry := AcknowledgeFence(s.registry, target, fence, s.now).0)
    case RetireAt(who) => WithNode(s, who, RetireNode(NodeAt(s, who)))
    case RevokeReplaced(who) => RevokeReplacedStep(s)
    case ReloadController =>
      var r := Restore(s.registry);
      Forgotten(if r.Ok? then s.(registry := r.value) else s)
    case ExpireRegistry => s.(registry := ExpireDue(s.registry, s.now))
  }

  /** A grant to `holder` at `who`: it names an incarnation of the component there, a delivery reaches exactly
      that incarnation and is taken by the node, and only a lease the node does not act on is withdrawn. */
  predicate GrantEnabled(s: State, who: Who, holder: Incarnation, token: nat, delivered: bool, withdraw: bool) {
    var (registry, r) := GrantOutcome(s, holder, token);
    && token != 0 && holder.component == NodeAt(s, who).incarnation.component
    && (delivered && r.Ok? ==> holder == NodeAt(s, who).incarnation && Delivered(s, who, r.value).1.Ok?)
    && (withdraw && r.Ok? ==> registry.nextLeaseId != s.registry.nextLeaseId || !Accepts(NodeAt(s, who), s.now))
  }

  /** The controller decides to re-attest on what it remembers of the node: the reported incarnation holds the slot's
      lease and reported authority under its token. */
  predicate ReattestDecided(s: State, who: Who) {
    var current := ViewOf(s.registry, s.now).mutating;
    && current.Some? && ReportAt(s, who).Some?
    && var report := ReportAt(s, who).value;
    && current.value.holder == report.incarnation && report.hasAuthority && report.token == current.value.token
  }

  /** When the controller or the environment may take a step. */
  predicate Enabled(s: State, e: Event) {
    match e
    case Tick(elapsed) => s.now + elapsed + MAX_LEASE_TTL_MS <= MAX_U64
    case Restart(who, uuid) => uuid != 0
    case GrantTo(who, holder, token, delivered, withdraw) => GrantEnabled(s, who, holder, token, delivered, withdraw)
    case ReattestAt(who, replied) =>
      ReattestDecided(s, who) && ReportAt(s, who).value.incarnation == NodeAt(s, who).incarnation
    case FenceByReport(who, target, fence) =>
      && ReportAt(s, who).Some? && ViewOf(s.registry, s.now).mutating.None?
      && (ReportAt(s, who).value.lifecycle.FencedOff? || ReportAt(s, who).value.lifecycle.Retired?)
      && target.component == ReportAt(s, who).value.incarnation.component
      && (target == ReportAt(s, who).value.incarnation || target.boot < ReportAt(s, who).value.incarnation.boot)
    case RevokeReplaced(who) =>
      && ReportAt(s, who).Some? && ViewOf(s.registry, s.now).slotHolder.Some?
      && ProvablyReplaced(ViewOf(s.registry, s.now).slotHolder.value.holder, ReportAt(s, who).value.incarnation)
    case _ => true
  }

  function RunOf(s: State, events: seq<Event>): State
    decreases |events|
  {
    if events == [] then s else RunOf(Step(s, events[0]), events[1..])
  }

  predicate Legal(s: State, events: seq<Event>)
    decreases |events|
  {
    events != [] ==> Enabled(s, events[0]) && Legal(Step(s, events[0]), events[1..])
  }

  /** A freshly established shard and two nodes of different components, neither of which has confirmed
      whatever lease its disk may record. */
  predicate Initial(s: State) {
    && s.ttl > 0 && s.ttl <= MAX_LEASE_TTL_MS && s.now + MAX_LEASE_TTL_MS <= MAX_U64
    && Establish(s.registry.shard, s.registry.epoch) == Ok(s.registry)
    && s.source.incarnation.Valid() && s.target.incarnation.Valid()
    && s.source.incarnation.component != s.target.incarnation.component
    && !s.source.confirmed && !s.target.confirmed
    && s.sourceReport.None? && s.targetReport.None?
  }

  // ---------------------------------------------------------------- the invariant

  /** The node's lease is the one that occupies the registry's mutation slot, and ends no later. */
  predicate HoldsSlot(s: ShardAuthority, n: NodeState)
    requires n.lease.Some?
  {
    && |s.leases| > 0
    && var l := s.leases[|s.leases| - 1];
    && R.Busy(l) && l.holder == n.incarnation && l.token == n.lease.value.token
    && l.epoch == n.lease.value.epoch && l.generation == n.lease.value.generation
    && n.lease.value.expiresAt <= l.expiresAt
  }

  predicate NodeOk(s: ShardAuthority, n: NodeState, now: nat) {
    n.incarnation.Valid() && (Accepts(n, now) ==> HoldsSlot(s, n))
  }

  predicate OutOfService(n: NodeState) { n.lifecycle.FencedOff? || n.lifecycle.Retired? }

  /** A remembered report is of this or an earlier incarnation; if it says the current incarnation is out of service
      while the node accepts writes again, the slot's lease is not being fenced; and if it says the current
      incarnation has authority, the node still has its lease confirmed or was taken out of service since. */
  predicate ReportOk(s: ShardAuthority, n: NodeState, report: Option<Report>, now: nat) {
    report.Some? ==>
      var i := report.value.incarnation;
      && i.Valid() && i.component == n.incarnation.component && i.boot <= n.incarnation.boot
      && (i.boot == n.incarnation.boot ==> i == n.incarnation)
      && (i == n.incarnation && !report.value.lifecycle.Serving? && !report.value.lifecycle.Recovering?
          && Accepts(n, now) ==>
            |s.leases| > 0 && s.leases[|s.leases| - 1].state.Active?)
      && (i == n.incarnation && report.value.hasAuthority ==> n.confirmed || OutOfService(n))
  }

  predicate AllExpireBy(leases: seq<Lease>, bound: nat) {
    forall i :: 0 <= i < |leases| ==> leases[i].expiresAt <= bound
  }

  predicate ExpiriesBounded(s: State) { AllExpireBy(s.registry.leases, s.now + s.ttl) }

  predicate RegistryOk(s: State) {
    && s.ttl > 0 && s.ttl <= MAX_LEASE_TTL_MS && s.now + MAX_LEASE_TTL_MS <= MAX_U64
    && R.WellFormed(s.registry) && R.SlotIsLast(s.registry) && ExpiriesBounded(s)
  }

  predicate Inv(s: State) {
    && RegistryOk(s)
    && s.source.incarnation.component != s.target.incarnation.component
    && NodeOk(s.registry, s.source, s.now) && NodeOk(s.registry, s.target, s.now)
    && ReportOk(s.registry, s.source, s.sourceReport, s.now) && ReportOk(s.registry, s.target, s.targetReport, s.now)
  }

  // ---------------------------------------------------------------- the registry part of a step

  lemma AppendedExpiries(leases: seq<Lease>, l: Lease, bound: nat)
    requires AllExpireBy(leases, bound) && l.expiresAt <= bound
    ensures AllExpireBy(Bounded(leases + [l], MAX_LEASE_HISTORY), bound)
  {
  }

  lemma GrantExpiries(s: ShardAuthority, req: GrantRequest, now: nat, token: nat, bound: nat)
    requires AddU64(now, req.ttl) <= bound && AllExpireBy(s.leases, bound)
    ensures AllExpireBy(Grant(s, req, now, now, token).0.leases, bound)
  {
    var e := ExpireAll(s.leases, now);
    assert AllExpireBy(e, bound);
    var g := if req.mode.ReadOnlyShared? then s.generation else s.generation + 1;
    AppendedExpiries(e, NewLease(s.(leases := e, generation := g), req, now, token), bound);
  }

  /** The controller only issues mutating grants with its own time-to-live, so every registry operation it
      performs keeps the registry part of the invariant. */
  lemma RegistryStep(s: State, op: R.Op)
    requires RegistryOk(s) && !op.RenewOp?
    requires op.GrantOp? ==> op.token != 0 && op.now == s.now && op.req == Request(s, op.req.holder)
    ensures RegistryOk(s.(registry := R.Apply(s.registry, op)))
  {
    R.StepKeepsWellFormed(s.registry, op);
    R.MutatingStepKeepsSlotLast(s.registry, op);
    if op.GrantOp? {
      GrantExpiries(s.registry, op.req, s.now, op.token, s.now + s.ttl);
    } else {
      R.OtherOpsFrame(s.registry, op);
    }
  }

  // ---------------------------------------------------------------- keeping the slot

  predicate LastBusy(s: ShardAuthority) { |s.leases| > 0 && R.Busy(s.leases[|s.leases| - 1]) }

  /** Nothing happened to the last lease that its holder could notice. */
  predicate SlotStands(s: ShardAuthority, t: ShardAuthority) {
    && |s.leases| > 0 && |t.leases| > 0
    && R.Evolves(s.leases[|s.leases| - 1], t.leases[|t.leases| - 1]) && LastBusy(t)
    && s.leases[|s.leases| - 1].expiresAt <= t.leases[|t.leases| - 1].expiresAt
  }

  lemma NodeKept(s: ShardAuthority, t: ShardAuthority, n: NodeState, now: nat)
    requires NodeOk(s, n, now) && (Accepts(n, now) ==> SlotStands(s, t))
    ensures NodeOk(t, n, now)
  {
  }

  predicate ActiveStays(s: ShardAuthority, t: ShardAuthority) {
    && |s.leases| > 0 && |t.leases| > 0
    && (s.leases[|s.leases| - 1].state.Active? ==> t.leases[|t.leases| - 1].state.Active?)
  }

  lemma ReportKept(s: ShardAuthority, t: ShardAuthority, n: NodeState, r: Option<Report>, now: nat)
    requires ReportOk(s, n, r, now)
    requires Accepts(n, now) ==> ActiveStays(s, t)
    ensures ReportOk(t, n, r, now)
  {
  }

  /** An accepting node's lease blocks the slot right now. */
  lemma AcceptingBlocks(s: ShardAuthority, n: NodeState, now: nat)
    requires NodeOk(s, n, now) && Accepts(n, now)
    ensures |s.leases| > 0 && Blocks(s.leases[|s.leases| - 1], now)
  {
  }

  // ---------------------------------------------------------------- time, restarts, reports

  /** A step of one node that ends in a state the registry still vouches for. */
  lemma NodeStep(s: State, who: Who, n: NodeState)
    requires Inv(s) && n.incarnation.component == NodeAt(s, who).incarnation.component
    requires NodeOk(s.registry, n, s.now) && ReportOk(s.registry, n, ReportAt(s, who), s.now)
    ensures Inv(WithNode(s, who, n))
  {
  }

  /** A restarted, started or retired node accepts nothing it did not accept before. */
  lemma NodeEventKeepsInv(s: State, e: Event)
    requires Inv(s) && Enabled(s, e) && (e.Restart? || e.Serve? || e.RetireAt?)
    ensures Inv(Step(s, e))
  {
    var n := NodeAt(s, e.who);
    match e
    case Restart(who, uuid) => NodeStep(s, who, Reopened(n, uuid));
    case Serve(who) => NodeStep(s, who, StartServing(n));
    case RetireAt(who) => NodeStep(s, who, RetireNode(n));
  }

  lemma ObserveKeepsInv(s: State, who: Who)
    requires Inv(s)
    ensures Inv(Step(s, Observe(who)))
  {
  }

  lemma TickKeepsInv(s: State, elapsed: nat)
    requires Inv(s) && Enabled(s, Tick(elapsed))
    ensures Inv(Step(s, Tick(elapsed)))
  {
    var t := Step(s, Tick(elapsed));
    assert ExpiriesBounded(t);
  }

  /** A registry step that leaves every accepting node its slot. */
  lemma RegistryOnly(s: State, t: ShardAuthority)
    requires Inv(s) && RegistryOk(s.(registry := t))
    requires Accepts(s.source, s.now) || Accepts(s.target, s.now) ==>
              SlotStands(s.registry, t) && ActiveStays(s.registry, t)
    ensures Inv(s.(registry := t))
  {
    NodeKept(s.registry, t, s.source, s.now);
    NodeKept(s.registry, t, s.target, s.now);
    ReportKept(s.registry, t, s.source, s.sourceReport, s.now);
    ReportKept(s.registry, t, s.target, s.targetReport, s.now);
  }

  lemma ExpiryStands(s: ShardAuthority, now: nat)
    requires LastBusy(s) && now < s.leases[|s.leases| - 1].expiresAt
    ensures SlotStands(s, ExpireDue(s, now)) && ActiveStays(s, ExpireDue(s, now))
  {
  }

  lemma ExpiryKeepsInv(s: State)
    requires Inv(s)
    ensures Inv(Step(s, ExpireRegistry))
  {
    RegistryStep(s, R.ExpireOp(s.now));
    if Accepts(s.source, s.now) || Accepts(s.target, s.now) { ExpiryStands(s.registry, s.now); }
    RegistryOnly(s, ExpireDue(s.registry, s.now));
  }

  lemma UnattestedStands(s: ShardAuthority)
    requires LastBusy(s)
    ensures SlotStands(s, s.(leases := Unattested(s.leases))) && ActiveStays(s, s.(leases := Unattested(s.leases)))
  {
  }

  lemma ForgettingKeepsInv(s: State)
    requires Inv(s)
    ensures Inv(Forgotten(s))
  {
  }

  lemma ReloadedRegistry(s: State)
    requires RegistryOk(s)
    ensures var t := s.registry.(leases := Unattested(s.registry.leases));
            Restore(s.registry) == Ok(t) && RegistryOk(s.(registry := t))
  {
    R.ReloadClearsOnlyAttestation(s.registry);
    RegistryStep(s, R.ReloadOp);
  }

  lemma ReloadKeepsInv(s: State)
    requires Inv(s)
    ensures Inv(Step(s, ReloadController))
  {
    var t := s.registry.(leases := Unattested(s.registry.leases));
    ReloadedRegistry(s);
    if Accepts(s.source, s.now) || Accepts(s.target, s.now) { UnattestedStands(s.registry); }
    RegistryOnly(s, t);
    ForgettingKeepsInv(s.(registry := t));
  }

  // ---------------------------------------------------------------- fences

  lemma FenceRequestStands(s: ShardAuthority, target: Incarnation, now: nat)
    requires LastBusy(s) && now < s.leases[|s.leases| - 1].expiresAt
    ensures SlotStands(s, RequestFence(s, target, now).0)
  {
  }

  lemma FencedRegistry(s: State, target: Incarnation)
    requires RegistryOk(s)
    ensures RegistryOk(s.(registry := RequestFence(s.registry, target, s.now).0))
  {
    RegistryStep(s, R.FenceOp(target, s.now));
  }

  /** A registry step after which the controller remembers no report. */
  lemma RegistryAndForget(s: State, t: ShardAuthority)
    requires Inv(s) && RegistryOk(s.(registry := t))
    requires Accepts(s.source, s.now) || Accepts(s.target, s.now) ==> SlotStands(s.registry, t)
    ensures Inv(Forgotten(s.(registry := t)))
  {
    NodeKept(s.registry, t, s.source, s.now);
    NodeKept(s.registry, t, s.target, s.now);
  }

  lemma AskFenceKeepsInv(s: State, target: Incarnation)
    requires Inv(s)
    ensures Inv(Step(s, AskFence(target)))
  {
    FencedRegistry(s, target);
    if Accepts(s.source, s.now) || Accepts(s.target, s.now) { FenceRequestStands(s.registry, target, s.now); }
    RegistryAndForget(s, RequestFence(s.registry, target, s.now).0);
  }

  /** Acknowledging a fence on `target` touches the last lease only when `target` holds it and it is fencing. */
  lemma AcknowledgeTouches(s: ShardAuthority, target: Incarnation, fence: nat, now: nat)
    requires R.WellFormed(s) && LastBusy(s)
    requires s.leases[|s.leases| - 1].holder != target || s.leases[|s.leases| - 1].state.Active?
    ensures SlotStands(s, AcknowledgeFence(s, target, fence, now).0)
    ensures |AcknowledgeFence(s, target, fence, now).0.leases| == |s.leases|
    ensures AcknowledgeFence(s, target, fence, now).0.leases[|s.leases| - 1] == s.leases[|s.leases| - 1]
  {
  }

  lemma AcknowledgeKeeps(s: State, target: Incarnation, fence: nat, n: NodeState, r: Option<Report>)
    requires RegistryOk(s) && NodeOk(s.registry, n, s.now) && ReportOk(s.registry, n, r, s.now)
    requires Accepts(n, s.now) && n.incarnation == target ==>
               |s.registry.leases| > 0 && s.registry.leases[|s.registry.leases| - 1].state.Active?
    ensures NodeOk(AcknowledgeFence(s.registry, target, fence, s.now).0, n, s.now)
    ensures ReportOk(AcknowledgeFence(s.registry, target, fence, s.now).0, n, r, s.now)
  {
    var t := AcknowledgeFence(s.registry, target, fence, s.now).0;
    if Accepts(n, s.now) { AcknowledgeTouches(s.registry, target, fence, s.now); }
    NodeKept(s.registry, t, n, s.now);
    ReportKept(s.registry, t, n, r, s.now);
  }

  lemma FenceByReportKeepsInv(s: State, who: Who, target: Incarnation, fence: nat)
    requires Inv(s) && Enabled(s, FenceByReport(who, target, fence))
    ensures Inv(Step(s, FenceByReport(who, target, fence)))
  {
    RegistryStep(s, R.AcknowledgeOp(target, fence, s.now));
    AcknowledgeKeeps(s, target, fence, s.source, s.sourceReport);
    AcknowledgeKeeps(s, target, fence, s.target, s.targetReport);
  }

  lemma DeliverFenceKeepsInv(s: State, who: Who, target: Incarnation, fence: nat, replied: bool)
    requires Inv(s)
    ensures Inv(Step(s, DeliverFence(who, target, fence, replied)))
  {
    var node := FenceNode(NodeAt(s, who), target, fence).0;
    var t := WithNode(s, who, node);
    if FenceNode(NodeAt(s, who), target, fence).1.Ok? && replied {
      RegistryStep(s, R.AcknowledgeOp(target, fence, s.now));
      AcknowledgeKeeps(t, target, fence, t.source, t.sourceReport);
      AcknowledgeKeeps(t, target, fence, t.target, t.targetReport);
    }
  }

  // ---------------------------------------------------------------- replaced incarnations

  lemma AcknowledgeDeadKeepsInv(s: State, fence: nat, holder: Incarnation)
    requires Inv(s) && holder != s.source.incarnation && holder != s.target.incarnation
    ensures Inv(s.(registry := AcknowledgeFence(s.registry, holder, fence, s.now).0))
  {
    RegistryStep(s, R.AcknowledgeOp(holder, fence, s.now));
    AcknowledgeKeeps(s, holder, fence, s.source, s.sourceReport);
    AcknowledgeKeeps(s, holder, fence, s.target, s.targetReport);
  }

  lemma {:induction false} AcknowledgeAllKeepsInv(s: State, fences: seq<Fence>, holder: Incarnation)
    requires Inv(s) && holder != s.source.incarnation && holder != s.target.incarnation
    ensures Inv(s.(registry := AcknowledgeAll(s.registry, fences, holder, s.now)))
    decreases |fences|
  {
    if fences != [] {
      if Outstanding(fences[0], holder) {
        AcknowledgeDeadKeepsInv(s, fences[0].id, holder);
        AcknowledgeAllKeepsInv(s.(registry := AcknowledgeFence(s.registry, holder, fences[0].id, s.now).0),
                               fences[1..], holder);
      } else {
        AcknowledgeAllKeepsInv(s, fences[1..], holder);
      }
    }
  }

  lemma {:induction false} AcknowledgeAllEvolves(s: ShardAuthority, fences: seq<Fence>, holder: Incarnation, now: nat)
    ensures R.AllEvolve(s.leases, AcknowledgeAll(s, fences, holder, now).leases)
    decreases |fences|
  {
    if fences != [] {
      var t := AcknowledgeFence(s, holder, fences[0].id, now).0;
      R.OtherOpsFrame(s, R.AcknowledgeOp(holder, fences[0].id, now));
      AcknowledgeAllEvolves(t, fences[1..], holder, now);
      AcknowledgeAllEvolves(s, fences[1..], holder, now);
    }
  }

  /** Revoking a lease of another holder leaves an accepting node its slot. */
  lemma RevokeStands(s: ShardAuthority, id: nat, holder: Incarnation, n: NodeState, now: nat)
    requires NodeOk(s, n, now) && Accepts(n, now) && holder != n.incarnation
    requires forall i :: 0 <= i < |s.leases| && s.leases[i].id == id ==> s.leases[i].holder == holder
    ensures SlotStands(s, Revoke(s, id).0) && ActiveStays(s, Revoke(s, id).0)
  {
  }

  /** Revoking a lease whose holder is no running incarnation takes nothing from any node. */
  lemma RevokeKeeps(s: State, id: nat, holder: Incarnation)
    requires Inv(s) && holder != s.source.incarnation && holder != s.target.incarnation
    requires forall i :: 0 <= i < |s.registry.leases| && s.registry.leases[i].id == id ==>
              s.registry.leases[i].holder == holder
    ensures Inv(s.(registry := Revoke(s.registry, id).0))
  {
    RegistryStep(s, R.RevokeOp(id));
    if Accepts(s.source, s.now) { RevokeStands(s.registry, id, holder, s.source, s.now); }
    if Accepts(s.target, s.now) { RevokeStands(s.registry, id, holder, s.target, s.now); }
    RegistryOnly(s, Revoke(s.registry, id).0);
  }

  lemma SlotIsOnRecord(s: ShardAuthority, now: nat)
    requires R.SingleSlot(s.leases) && ViewOf(s, now).slotHolder.Some?
    ensures ViewOf(s, now).slotHolder.value in s.leases
  {
    R.ViewReportsSlot(s, now);
    if forall i :: 0 <= i < |s.leases| ==> !Blocks(s.leases[i], now) { assert false; }
    var i :| 0 <= i < |s.leases| && Blocks(s.leases[i], now);
  }

  lemma SameIdSameHolder(s: ShardAuthority, t: ShardAuthority, l: Lease)
    requires R.IdsOrdered(s.leases, s.nextLeaseId) && R.AllEvolve(s.leases, t.leases) && l in s.leases
    ensures forall i :: 0 <= i < |t.leases| && t.leases[i].id == l.id ==> t.leases[i].holder == l.holder
  {
    var k :| 0 <= k < |s.leases| && s.leases[k] == l;
    forall i | 0 <= i < |t.leases| && t.leases[i].id == l.id ensures t.leases[i].holder == l.holder {
      assert R.Evolves(s.leases[i], t.leases[i]);
      assert i == k;
    }
  }

  lemma RevokeReplacedKeepsInv(s: State, who: Who)
    requires Inv(s) && Enabled(s, RevokeReplaced(who))
    ensures Inv(Step(s, RevokeReplaced(who)))
  {
    var slot := ViewOf(s.registry, s.now).slotHolder.value;
    var u := s.(registry := AcknowledgeAll(s.registry, s.registry.fences, slot.holder, s.now));
    AcknowledgeAllKeepsInv(s, s.registry.fences, slot.holder);
    AcknowledgeAllEvolves(s.registry, s.registry.fences, slot.holder, s.now);
    SlotIsOnRecord(s.registry, s.now);
    SameIdSameHolder(s.registry, u.registry, slot);
    RevokeKeeps(u, slot.id, slot.holder);
  }

  // ---------------------------------------------------------------- grants

  /** A refused grant leaves the slot alone. */
  lemma RefusedGrantStands(s: ShardAuthority, req: GrantRequest, now: nat, token: nat)
    requires LastBusy(s) && now < s.leases[|s.leases| - 1].expiresAt
    requires Grant(s, req, now, now, token).1.Err?
    ensures SlotStands(s, Grant(s, req, now, now, token).0) && ActiveStays(s, Grant(s, req, now, now, token).0)
  {
    ExpiryStands(s, now);
  }

  /** A successful mutating grant that created no lease renewed the last one, which `req.holder` holds. */
  lemma RenewalIsLast(s: ShardAuthority, req: GrantRequest, now: nat, token: nat)
    requires R.WellFormed(s) && R.SlotIsLast(s) && req.mode.Mutating?
    requires Grant(s, req, now, now, token).1.Ok? && Grant(s, req, now, now, token).0.nextLeaseId == s.nextLeaseId
    ensures var t := Grant(s, req, now, now, token);
            && |s.leases| > 0 && |t.0.leases| == |s.leases| && R.AllEvolve(s.leases, t.0.leases)
            && t.1.value == t.0.leases[|s.leases| - 1] && R.Busy(t.1.value) && t.1.value.state.Active?
            && t.1.value.holder == req.holder && t.1.value.expiresAt == AddU64(now, req.ttl)
            && R.Busy(s.leases[|s.leases| - 1])
  {
    var e := ExpireAll(s.leases, now);
    var i := Incumbent(e, req, now, now);
    R.GrantEvolves(s, req, now, now, token);
    assert i < |e| && R.Busy(e[i]) && R.Busy(s.leases[i]);
    assert i == |e| - 1;
    assert R.IdsOrdered(e, s.nextLeaseId);
    R.FirstWithIdIs(e, s.nextLeaseId, i);
  }

  /** A mutating grant that created a lease found no live lease in the slot; the new one is last. */
  lemma NewLeaseIsLast(s: ShardAuthority, req: GrantRequest, now: nat, token: nat)
    requires R.WellFormed(s) && req.mode.Mutating?
    requires Grant(s, req, now, now, token).0.nextLeaseId != s.nextLeaseId
    ensures var t := Grant(s, req, now, now, token);
            && (forall i :: 0 <= i < |s.leases| ==> !Blocks(s.leases[i], now))
            && t.1.Ok? && |t.0.leases| > 0 && t.1.value == t.0.leases[|t.0.leases| - 1]
            && R.Busy(t.1.value) && t.1.value.state.Active?
            && t.1.value.holder == req.holder && t.1.value.expiresAt == AddU64(now, req.ttl)
  {
    var e := ExpireAll(s.leases, now);
    R.GrantEvolves(s, req, now, now, token);
    R.BoundedIsAppended(e, NewLease(Grant(s, req, now, now, token).0.(nextLeaseId := s.nextLeaseId), req, now, token));
    forall i | 0 <= i < |s.leases| ensures !Blocks(s.leases[i], now) { assert !Blocks(e[i], now); }
  }

  /** The node that takes the delivery of the slot's lease holds the slot. */
  lemma DeliveryKeepsInv(s: State, t: ShardAuthority, who: Who, l: Lease)
    requires Inv(s) && RegistryOk(s.(registry := t))
    requires |t.leases| > 0 && l == t.leases[|t.leases| - 1] && R.Busy(l) && l.state.Active?
    requires l.holder == NodeAt(s, who).incarnation && l.expiresAt == AddU64(s.now, s.ttl)
    requires Delivered(s, who, l).1.Ok? && !Accepts(NodeAt(s, Other(who)), s.now)
    ensures Inv(WithNode(s.(registry := t), who, Delivered(s, who, l).0))
  {
    var n := Delivered(s, who, l).0;
    assert NodeOk(t, n, s.now) && ReportOk(t, n, ReportAt(s, who), s.now);
    var o := NodeAt(s, Other(who));
    NodeKept(s.registry, t, o, s.now);
    ReportKept(s.registry, t, o, ReportAt(s, Other(who)), s.now);
  }

  /** Only the holder of the slot's lease can be accepting. */
  lemma AcceptingHoldsLast(s: State, who: Who, holder: Incarnation)
    requires Inv(s) && |s.registry.leases| > 0 && s.registry.leases[|s.registry.leases| - 1].holder == holder
    requires holder.component == NodeAt(s, who).incarnation.component
    ensures !Accepts(NodeAt(s, Other(who)), s.now)
  {
  }

  lemma NewGrantKeepsInv(s: State, who: Who, holder: Incarnation, token: nat, delivered: bool, withdraw: bool)
    requires Inv(s) && GrantEnabled(s, who, holder, token, delivered, withdraw)
    requires GrantOutcome(s, holder, token).0.nextLeaseId != s.registry.nextLeaseId
    ensures Inv(GrantStep(s, who, holder, token, delivered, withdraw))
  {
    var (t, r) := GrantOutcome(s, holder, token);
    RegistryStep(s, R.GrantOp(Request(s, holder), s.now, token));
    NewLeaseIsLast(s.registry, Request(s, holder), s.now, token);
    if Accepts(s.source, s.now) { AcceptingBlocks(s.registry, s.source, s.now); }
    if Accepts(s.target, s.now) { AcceptingBlocks(s.registry, s.target, s.now); }
    if delivered {
      DeliveryKeepsInv(s, t, who, r.value);
    } else {
      RegistryOnly(s, t);
      if withdraw {
        RegistryStep(s.(registry := t), R.RevokeOp(r.value.id));
        RegistryOnly(s.(registry := t), Revoke(t, r.value.id).0);
      }
    }
  }

  lemma RenewalKeepsInv(s: State, who: Who, holder: Incarnation, token: nat, delivered: bool, withdraw: bool)
    requires Inv(s) && GrantEnabled(s, who, holder, token, delivered, withdraw)
    requires GrantOutcome(s, holder, token).0.nextLeaseId == s.registry.nextLeaseId
    requires GrantOutcome(s, holder, token).1.Ok?
    ensures Inv(GrantStep(s, who, holder, token, delivered, withdraw))
  {
    var (t, r) := GrantOutcome(s, holder, token);
    RegistryStep(s, R.GrantOp(Request(s, holder), s.now, token));
    RenewalIsLast(s.registry, Request(s, holder), s.now, token);
    AcceptingHoldsLast(s, who, holder);
    if delivered {
      DeliveryKeepsInv(s, t, who, r.value);
    } else {
      RegistryOnly(s, t);
      if withdraw {
        RegistryStep(s.(registry := t), R.RevokeOp(r.value.id));
        RegistryOnly(s.(registry := t), Revoke(t, r.value.id).0);
      }
    }
  }

  lemma GrantKeepsInv(s: State, who: Who, holder: Incarnation, token: nat, delivered: bool, withdraw: bool)
    requires Inv(s) && GrantEnabled(s, who, holder, token, delivered, withdraw)
    ensures Inv(GrantStep(s, who, holder, token, delivered, withdraw))
  {
    var (t, r) := GrantOutcome(s, holder, token);
    if r.Err? {
      RegistryStep(s, R.GrantOp(Request(s, holder), s.now, token));
      if Accepts(s.source, s.now) || Accepts(s.target, s.now) {
        RefusedGrantStands(s.registry, Request(s, holder), s.now, token);
      }
      RegistryOnly(s, t);
    } else if t.nextLeaseId != s.registry.nextLeaseId {
      NewGrantKeepsInv(s, who, holder, token, delivered, withdraw);
    } else {
      RenewalKeepsInv(s, who, holder, token, delivered, withdraw);
    }
  }

  lemma ReattestStands(s: ShardAuthority, holder: Incarnation, token: nat, now: nat)
    requires LastBusy(s) && now < s.leases[|s.leases| - 1].expiresAt
    ensures SlotStands(s, Reattest(s, holder, token, now).0) && ActiveStays(s, Reattest(s, holder, token, now).0)
  {
  }

  lemma ReattestStandsFor(
      s: ShardAuthority, n: NodeState, holder: Incarnation, token: nat, now: nat, t: ShardAuthority)
    requires NodeOk(s, n, now) && Accepts(n, now) && t == Reattest(s, holder, token, now).0
    ensures SlotStands(s, t) && ActiveStays(s, t)
  {
    ReattestStands(s, holder, token, now);
  }

  /** Re-attesting a node that has its lease confirmed already, or that does not accept writes even so, changes
      nothing that matters. */
  lemma ReattestNodeKeeps(s: ShardAuthority, n: NodeState, r: Option<Report>, token: nat, now: nat)
    requires NodeOk(s, n, now) && ReportOk(s, n, r, now)
    requires n.confirmed || !Accepts(ReattestNode(n, token, now).0, now)
    ensures NodeOk(s, ReattestNode(n, token, now).0, now) && ReportOk(s, ReattestNode(n, token, now).0, r, now)
  {
  }

  /** A registry step and a node step taken together. */
  lemma PairStep(s: State, t: ShardAuthority, who: Who, n: NodeState)
    requires Inv(s.(registry := t)) && n.incarnation.component == NodeAt(s, who).incarnation.component
    requires NodeOk(t, n, s.now) && ReportOk(t, n, ReportAt(s, who), s.now)
    ensures Inv(WithNode(s.(registry := t), who, n))
  {
    NodeStep(s.(registry := t), who, n);
  }

  lemma ReattestedRegistry(s: State, t: ShardAuthority, holder: Incarnation, token: nat)
    requires RegistryOk(s) && t == R.Apply(s.registry, R.ReattestOp(holder, token, s.now))
    ensures RegistryOk(s.(registry := t))
  {
    RegistryStep(s, R.ReattestOp(holder, token, s.now));
  }

  lemma ReattestRegistryKeepsInv(s: State, t: ShardAuthority, holder: Incarnation, token: nat)
    requires Inv(s) && RegistryOk(s.(registry := t)) && t == Reattest(s.registry, holder, token, s.now).0
    ensures Inv(s.(registry := t))
  {
    if Accepts(s.source, s.now) { ReattestStandsFor(s.registry, s.source, holder, token, s.now, t); }
    if Accepts(s.target, s.now) { ReattestStandsFor(s.registry, s.target, holder, token, s.now, t); }
    RegistryOnly(s, t);
  }

  lemma NodeAndReport(s: State, who: Who)
    requires Inv(s)
    ensures NodeOk(s.registry, NodeAt(s, who), s.now) && ReportOk(s.registry, NodeAt(s, who), ReportAt(s, who), s.now)
  {
  }

  lemma HarmlessReattestKeepsInv(s: State, who: Who, replied: bool)
    requires Inv(s) && ViewOf(s.registry, s.now).mutating.Some?
    requires NodeAt(s, who).confirmed
          || !Accepts(ReattestNode(NodeAt(s, who), ViewOf(s.registry, s.now).mutating.value.token, s.now).0, s.now)
    ensures Inv(ReattestStep(s, who, replied))
  {
    var current := ViewOf(s.registry, s.now).mutating.value;
    var (node, status) := ReattestNode(NodeAt(s, who), current.token, s.now);
    var t := if status.Ok? && replied then Reattest(s.registry, current.holder, current.token, s.now).0 else s.registry;
    if status.Ok? && replied {
      ReattestedRegistry(s, t, current.holder, current.token);
      ReattestRegistryKeepsInv(s, t, current.holder, current.token);
    } else {
      assert s.(registry := t) == s;
    }
    NodeAndReport(s.(registry := t), who);
    ReattestNodeKeeps(t, NodeAt(s, who), ReportAt(s, who), current.token, s.now);
    PairStep(s, t, who, node);
  }

  lemma ReattestKeepsInv(s: State, who: Who, replied: bool)
    requires Inv(s) && Enabled(s, ReattestAt(who, replied))
    ensures Inv(Step(s, ReattestAt(who, replied)))
  {
    NodeAndReport(s, who);
    HarmlessReattestKeepsInv(s, who, replied);
  }

  // ---------------------------------------------------------------- whole runs

  lemma StepKeepsInv(s: State, e: Event)
    requires Inv(s) && Enabled(s, e)
    ensures Inv(Step(s, e))
  {
    match e
    case Tick(elapsed) => TickKeepsInv(s, elapsed);
    case Restart(who, uuid) => NodeEventKeepsInv(s, e);
    case Serve(who) => NodeEventKeepsInv(s, e);
    case RetireAt(who) => NodeEventKeepsInv(s, e);
    case Observe(who) => ObserveKeepsInv(s, who);
    case GrantTo(who, holder, token, delivered, withdraw) => GrantKeepsInv(s, who, holder, token, delivered, withdraw);
    case ReattestAt(who, replied) => ReattestKeepsInv(s, who, replied);
    case AskFence(target) => AskFenceKeepsInv(s, target);
    case DeliverFence(who, target, fence, replied) => DeliverFenceKeepsInv(s, who, target, fence, replied);
    case FenceByReport(who, target, fence) => FenceByReportKeepsInv(s, who, target, fence);
    case RevokeReplaced(who) => RevokeReplacedKeepsInv(s, who);
    case ReloadController => ReloadKeepsInv(s);
    case ExpireRegistry => ExpiryKeepsInv(s);
  }

  lemma {:induction false} RunKeepsInv(s: State, events: seq<Event>)
    requires Inv(s) && Legal(s, events)
    ensures Inv(RunOf(s, events))
    decreases |events|
  {
    if events != [] {
      StepKeepsInv(s, events[0]);
      RunKeepsInv(Step(s, events[0]), events[1..]);
    }
  }

  lemma InitialInv(s: State)
    requires Initial(s)
    ensures Inv(s)
  {
  }

  /** In every reachable state each node that would accept a mutating write holds the lease the registry's
      view reports in the mutation slot, with the same token, epoch and generation and an expiry no
      later than the registry's. */
  lemma AcceptingNodeHoldsTheSlot(s: State, events: seq<Event>, who: Who)
    requires Initial(s) && Legal(s, events) && Accepts(NodeAt(RunOf(s, events), who), RunOf(s, events).now)
    ensures var t := RunOf(s, events);
            var n := NodeAt(t, who);
            var slot := ViewOf(t.registry, t.now).slotHolder;
            && slot.Some? && slot.value.holder == n.incarnation && slot.value.token == n.lease.value.token
            && slot.value.epoch == n.lease.value.epoch && slot.value.generation == n.lease.value.generation
            && n.lease.value.expiresAt <= slot.value.expiresAt
  {
    var t := RunOf(s, events);
    InitialInv(s);
    RunKeepsInv(s, events);
    AcceptingBlocks(t.registry, NodeAt(t, who), t.now);
    R.ViewReportsSlot(t.registry, t.now);
  }

  /** At most one of the two nodes accepts mutating writes at any moment of any run. */
  lemma AtMostOneWriter(s: State, events: seq<Event>)
    requires Initial(s) && Legal(s, events)
    ensures !(Accepts(RunOf(s, events).source, RunOf(s, events).now)
              && Accepts(RunOf(s, events).target, RunOf(s, events).now))
  {
    InitialInv(s);
    RunKeepsInv(s, events);
  }
}
