/** The authority record of one shard and the decisions the registry takes on it.
    Every operation is a function from the record before to the record after and the reply;
    the clock reading and a freshly minted token are arguments. */
module Authority {
  import opened Common

  const MAX_LEASE_TTL_MS: nat := 24 * 60 * 60 * 1000
  const MAX_LEASE_HISTORY: nat := 256
  const MAX_FENCE_HISTORY: nat := 256
  const MAX_READ_ONLY_LEASES: nat := 8

  datatype Mode = NoAuthority | ReadOnlyShared | Mutating

  datatype LeaseState = Active | Fencing | Fenced | Expired | Revoked

  /** Boot identity of one component process. */
  datatype Incarnation = Incarnation(component: string, uuid: nat, boot: nat) {
    predicate Valid() { component != "" && uuid != 0 && boot != 0 }
  }

  datatype Lease = Lease(
    id: nat, shard: string, holder: Incarnation, epoch: nat, generation: nat, token: nat,
    mode: Mode, state: LeaseState, issuedAt: nat, expiresAt: nat, attested: bool)

  datatype Fence = Fence(
    id: nat, target: Incarnation, epoch: nat, generation: nat, fencedLease: nat,
    issuedAt: nat, acknowledgedAt: nat, acknowledged: bool)

  datatype ShardAuthority = ShardAuthority(
    shard: string, epoch: nat, generation: nat, leases: seq<Lease>, fences: seq<Fence>,
    nextLeaseId: nat, nextFenceId: nat)

  datatype GrantRequest = GrantRequest(holder: Incarnation, mode: Mode, ttl: nat)

  datatype Claim = Claim(shard: string, incarnation: Incarnation, epoch: nat, generation: nat, token: nat) {
    predicate Valid() {
      shard != "" && incarnation.Valid() && epoch != 0 && generation != 0 && token != 0
    }
  }

  datatype View = View(
    epoch: nat, generation: nat, mutating: Option<Lease>, slotHolder: Option<Lease>,
    readOnly: seq<Lease>, fences: seq<Fence>)

  /** What the holder of a lease presents as evidence of it. */
  function ClaimOf(l: Lease): Claim {
    Claim(l.shard, l.holder, l.epoch, l.generation, l.token)
  }

  // ---------------------------------------------------------------- lease states

  predicate Live(state: LeaseState) { state.Active? || state.Fencing? }

  function EffectiveState(l: Lease, now: nat): LeaseState {
    if Live(l.state) && now >= l.expiresAt then Expired else l.state
  }

  predicate Blocks(l: Lease, now: nat) {
    var state := EffectiveState(l, now);
    l.mode.Mutating? && !state.Fenced? && !state.Expired? && !state.Revoked?
  }

  function Expire(l: Lease, now: nat): Lease {
    if Live(l.state) && now >= l.expiresAt then l.(state := Expired) else l
  }

  function ExpireAll(leases: seq<Lease>, now: nat): (r: seq<Lease>)
    ensures |r| == |leases|
  {
    seq(|leases|, i requires 0 <= i < |leases| => Expire(leases[i], now))
  }

  function FirstWithId(leases: seq<Lease>, id: nat): (r: nat)
    ensures r <= |leases|
    ensures r < |leases| ==> leases[r].id == id
    ensures r == |leases| ==> forall i :: 0 <= i < |leases| ==> leases[i].id != id
  {
    IndexWhere(leases, (l: Lease) => l.id == id)
  }

  function CountActiveReadOnly(leases: seq<Lease>, now: nat): (r: nat)
    ensures r <= |leases|
  {
    if leases == [] then 0
    else
      var last := leases[|leases| - 1];
      CountActiveReadOnly(leases[..|leases| - 1], now) +
      if last.mode.ReadOnlyShared? && EffectiveState(last, now).Active? then 1 else 0
  }

  // ---------------------------------------------------------------- operations

  function Establish(shard: string, epoch: nat): Result<ShardAuthority> {
    if shard == "" || epoch == 0 then Err(InvalidArgument)
    else Ok(ShardAuthority(shard, epoch, 1, [], [], 1, 1))
  }

  predicate SameHolderAndMode(l: Lease, req: GrantRequest, now: nat) {
    l.holder == req.holder && l.mode == req.mode && EffectiveState(l, now).Active?
  }

  /** The lease a grant request runs into: the occupant of the mutation slot for a mutating
      request, and the requester's own live lease of the same mode otherwise. */
  function Incumbent(leases: seq<Lease>, req: GrantRequest, now: nat, slotNow: nat): (r: nat)
    ensures r <= |leases|
    ensures r < |leases| ==>
              if req.mode.Mutating? then Blocks(leases[r], slotNow) else SameHolderAndMode(leases[r], req, now)
    ensures forall i :: 0 <= i < r ==>
              if req.mode.Mutating? then !Blocks(leases[i], slotNow) else !SameHolderAndMode(leases[i], req, now)
  {
    if req.mode.Mutating? then IndexWhere(leases, (l: Lease) => Blocks(l, slotNow))
    else IndexWhere(leases, (l: Lease) => SameHolderAndMode(l, req, now))
  }

  /** Whether the incumbent found for a request may simply be renewed. */
  predicate Renewable(l: Lease, req: GrantRequest, now: nat) {
    req.mode.Mutating? ==> l.holder == req.holder && EffectiveState(l, now).Active?
  }

  function Renewed(l: Lease, now: nat, ttl: nat): Lease {
    l.(expiresAt := AddU64(now, ttl), attested := true)
  }

  function CheckRequest(req: GrantRequest): Status {
    if !req.holder.Valid() then Err(InvalidArgument)
    else if req.ttl == 0 then Err(InvalidArgument)
    else if req.ttl > MAX_LEASE_TTL_MS then Err(BoundsExceeded)
    else SUCCESS
  }

  /** Drops the oldest entry of a history that has outgrown its bound by one. */
  function Bounded<T>(s: seq<T>, limit: nat): seq<T> {
    if |s| > limit then s[1..] else s
  }

  function NewLease(s: ShardAuthority, req: GrantRequest, now: nat, token: nat): Lease {
    Lease(s.nextLeaseId, s.shard, req.holder, s.epoch, s.generation, token, req.mode, Active,
          now, AddU64(now, req.ttl), true)
  }

  /** A grant that found no incumbent. The generation moves before the lease id space is checked. */
  function GrantNew(s: ShardAuthority, req: GrantRequest, now: nat, token: nat): (ShardAuthority, Result<Lease>) {
    if req.mode.ReadOnlyShared? && CountActiveReadOnly(s.leases, now) >= MAX_READ_ONLY_LEASES then
      (s, Err(ResourceExhausted))
    else if !req.mode.ReadOnlyShared? && s.generation >= MAX_U64 then
      (s, Err(BoundsExceeded))
    else
      var g := if req.mode.ReadOnlyShared? then s else s.(generation := s.generation + 1);
      if g.nextLeaseId >= MAX_U64 then (g, Err(BoundsExceeded))
      else
        var lease := NewLease(g, req, now, token);
        (g.(leases := Bounded(g.leases + [lease], MAX_LEASE_HISTORY), nextLeaseId := g.nextLeaseId + 1),
         Ok(lease))
  }

  /** `now` is the reading taken by the operation, `slotNow` the second reading taken while it
      looks for the occupant of the mutation slot. */
  function Grant(s: ShardAuthority, req: GrantRequest, now: nat, slotNow: nat, token: nat)
    : (ShardAuthority, Result<Lease>)
  {
    if CheckRequest(req).Err? then (s, Err(CheckRequest(req).code))
    else
      var e := s.(leases := ExpireAll(s.leases, now));
      var i := Incumbent(e.leases, req, now, slotNow);
      if i == |e.leases| then GrantNew(e, req, now, token)
      else if !Renewable(e.leases[i], req, now) then (e, Err(AuthorityConflict))
      else
        var j := if req.mode.Mutating? then FirstWithId(e.leases, e.leases[i].id) else i;
        var lease := Renewed(e.leases[j], now, req.ttl);
        (e.(leases := e.leases[j := lease]), Ok(lease))
  }

  function Renew(s: ShardAuthority, id: nat, ttl: nat, now: nat): (ShardAuthority, Status) {
    if ttl == 0 || ttl > MAX_LEASE_TTL_MS then (s, Err(BoundsExceeded))
    else
      var e := s.(leases := ExpireAll(s.leases, now));
      var i := FirstWithId(e.leases, id);
      if i == |e.leases| then (e, Err(NotFound))
      else if !e.leases[i].state.Active? then (e, Err(StaleAuthority))
      else (e.(leases := e.leases[i := e.leases[i].(expiresAt := AddU64(now, ttl))]), SUCCESS)
  }

  predicate Outstanding(f: Fence, target: Incarnation) {
    !f.acknowledged && f.target == target
  }

  predicate HoldsMutation(l: Lease, target: Incarnation, now: nat) {
    l.holder == target && l.mode.Mutating? && EffectiveState(l, now).Active?
  }

  function NewFence(s: ShardAuthority, target: Incarnation, lease: Lease, now: nat): Fence {
    Fence(s.nextFenceId, target, s.epoch, s.generation, lease.id, now, 0, false)
  }

  function RequestFence(s: ShardAuthority, target: Incarnation, now: nat): (ShardAuthority, Status) {
    if !target.Valid() then (s, Err(InvalidArgument))
    else
      var e := s.(leases := ExpireAll(s.leases, now));
      var k := IndexWhere(e.fences, (f: Fence) => Outstanding(f, target));
      var i := IndexWhere(e.leases, (l: Lease) => HoldsMutation(l, target, now));
      if k < |e.fences| then (e, Err(DuplicateFrame))
      else if i == |e.leases| then (e, Err(NotFound))
      else if e.generation >= MAX_U64 || e.nextFenceId >= MAX_U64 then (e, Err(BoundsExceeded))
      else
        var g := e.(generation := e.generation + 1);
        (g.(leases := g.leases[i := g.leases[i].(state := Fencing)],
            fences := Bounded(g.fences + [NewFence(g, target, g.leases[i], now)], MAX_FENCE_HISTORY),
            nextFenceId := g.nextFenceId + 1),
         SUCCESS)
  }

  /** Acknowledging a fence closes the lease it fenced, if that lease is still fencing. */
  function CloseFenced(l: Lease, id: nat): Lease {
    if l.id == id && l.state.Fencing? then l.(state := Fenced) else l
  }

  function CloseAll(leases: seq<Lease>, id: nat): (r: seq<Lease>)
    ensures |r| == |leases|
  {
    seq(|leases|, i requires 0 <= i < |leases| => CloseFenced(leases[i], id))
  }

  function AcknowledgeFence(s: ShardAuthority, holder: Incarnation, fence: nat, now: nat)
    : (ShardAuthority, Status)
  {
    var k := IndexWhere(s.fences, (f: Fence) => f.id == fence);
    if k == |s.fences| then (s, Err(NotFound))
    else if s.fences[k].target != holder then (s, Err(StaleIncarnation))
    else if s.fences[k].acknowledged then (s, SUCCESS)
    else
      (s.(fences := s.fences[k := s.fences[k].(acknowledged := true, acknowledgedAt := now)],
          leases := CloseAll(s.leases, s.fences[k].fencedLease)),
       SUCCESS)
  }

  function Revoke(s: ShardAuthority, id: nat): (ShardAuthority, Status) {
    var i := FirstWithId(s.leases, id);
    if i == |s.leases| then (s, Err(NotFound))
    else (s.(leases := s.leases[i := s.leases[i].(state := Revoked)]), SUCCESS)
  }

  function ExpireDue(s: ShardAuthority, now: nat): ShardAuthority {
    s.(leases := ExpireAll(s.leases, now))
  }

  function Reattest(s: ShardAuthority, holder: Incarnation, token: nat, now: nat): (ShardAuthority, Status) {
    var e := s.(leases := ExpireAll(s.leases, now));
    var i := IndexWhere(e.leases, (l: Lease) => l.holder == holder && l.token == token);
    if i == |e.leases| then (e, Err(StaleAuthority))
    else if !e.leases[i].state.Active? then (e, Err(StaleAuthority))
    else if now >= e.leases[i].expiresAt then (e, Err(StaleAuthority))
    else (e.(leases := e.leases[i := e.leases[i].(attested := true)]), SUCCESS)
  }

  function RevokeLive(l: Lease): Lease {
    if Live(l.state) then l.(state := Revoked) else l
  }

  function RevokeAllLive(leases: seq<Lease>): (r: seq<Lease>)
    ensures |r| == |leases|
  {
    seq(|leases|, i requires 0 <= i < |leases| => RevokeLive(leases[i]))
  }

  function AdvanceEpoch(s: ShardAuthority, epoch: nat): (ShardAuthority, Status) {
    if epoch <= s.epoch then (s, Err(StaleEpoch))
    else (s.(epoch := epoch, generation := 1, leases := RevokeAllLive(s.leases)), SUCCESS)
  }

  // ---------------------------------------------------------------- queries

  function ModePermits(required: Mode, mode: Mode): Status {
    if required.Mutating? && !mode.Mutating? then Err(NotAuthoritative)
    else if !required.NoAuthority? && mode.NoAuthority? then Err(NotAuthoritative)
    else SUCCESS
  }

  function ValidateClaim(s: ShardAuthority, c: Claim, required: Mode, now: nat): Status {
    if !c.Valid() then Err(InvalidArgument)
    else if c.epoch != s.epoch then Err(StaleEpoch)
    else if c.generation != s.generation then Err(StaleGeneration)
    else
      var i := IndexWhere(s.leases, (l: Lease) => l.holder == c.incarnation && l.token == c.token);
      if i == |s.leases| then Err(StaleAuthority)
      else if !EffectiveState(s.leases[i], now).Active? then Err(StaleAuthority)
      else if !s.leases[i].attested then Err(StaleAuthority)
      else ModePermits(required, s.leases[i].mode)
  }

  /** One turn of the scan that builds a view: a later lease overrides an earlier one. */
  function Seen(v: View, l: Lease, now: nat): View {
    var copy := l.(state := EffectiveState(l, now));
    if copy.mode.Mutating? && copy.state.Active? then v.(mutating := Some(copy), slotHolder := Some(copy))
    else if copy.mode.Mutating? && copy.state.Fencing? then v.(slotHolder := Some(copy))
    else if copy.mode.ReadOnlyShared? && copy.state.Active? then v.(readOnly := v.readOnly + [copy])
    else v
  }

  function Scan(s: ShardAuthority, now: nat, n: nat): View
    requires n <= |s.leases|
  {
    if n == 0 then View(s.epoch, s.generation, None, None, [], s.fences)
    else Seen(Scan(s, now, n - 1), s.leases[n - 1], now)
  }

  function ViewOf(s: ShardAuthority, now: nat): View {
    Scan(s, now, |s.leases|)
  }

  // ---------------------------------------------------------------- save and restore

  /** Persisted leases come back without attestation. */
  function Unattested(leases: seq<Lease>): (r: seq<Lease>)
    ensures |r| == |leases|
  {
    seq(|leases|, i requires 0 <= i < |leases| => leases[i].(attested := false))
  }

  predicate LoadableLease(l: Lease) {
    l.id != 0 && l.holder.Valid() && l.epoch != 0 && l.generation != 0 && l.token != 0
  }

  predicate LoadableFence(f: Fence) {
    f.id != 0 && f.target.Valid() && f.epoch != 0 && f.generation != 0
  }

  /** The first objection the loader raises against a saved lease, if any. */
  function LeaseFault(l: Lease, shard: string): Option<ErrorCode> {
    if !LoadableLease(l) then Some(Malformed)
    else if l.shard != shard then Some(IntegrityFailure)
    else None
  }

  /** Restores one saved shard entry, or refuses it with the first fault met. */
  function Restore(saved: ShardAuthority): Result<ShardAuthority> {
    if saved.shard == "" || saved.epoch == 0 || saved.generation == 0 then Err(Malformed)
    else
      var i := IndexWhere(saved.leases, (l: Lease) => LeaseFault(l, saved.shard).Some?);
      var k := IndexWhere(saved.fences, (f: Fence) => !LoadableFence(f));
      if i < |saved.leases| then Err(LeaseFault(saved.leases[i], saved.shard).value)
      else if k < |saved.fences| then Err(Malformed)
      else Ok(saved.(leases := Unattested(saved.leases)))
  }
}
