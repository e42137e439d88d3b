/** The authority part of a control-plane node: the lease it holds, whether this incarnation confirmed it,
    and the node operations that change either. */
module NodeAuthority {
  import opened Common
  import opened Authority

  datatype Lifecycle = Recovering | Serving | FencedOff | Retired

  datatype NodeState = NodeState(
    incarnation: Incarnation, lifecycle: Lifecycle, lease: Option<Lease>, confirmed: bool,
    retiredMarker: bool, lastFence: nat)

  // ---------------------------------------------------------------- admission of a request

  function RequireAuthority(n: NodeState, c: Claim, required: Mode, now: nat): Status {
    if n.lifecycle.Retired? then Err(NotAuthoritative)
    else if n.lifecycle.FencedOff? then Err(StaleAuthority)
    else if n.lease.None? then Err(NotAuthoritative)
    else if !n.confirmed then Err(StaleAuthority)
    else if now >= n.lease.value.expiresAt then Err(StaleAuthority)
    else if !c.Valid() then Err(InvalidArgument)
    else if c.incarnation != n.incarnation then Err(StaleIncarnation)
    else if c.epoch != n.lease.value.epoch then Err(StaleEpoch)
    else if c.generation != n.lease.value.generation then Err(StaleGeneration)
    else if c.token != n.lease.value.token then Err(StaleAuthority)
    else ModePermits(required, n.lease.value.mode)
  }

  /** The node would let some mutating write through. */
  predicate Accepts(n: NodeState, now: nat) {
    && !n.lifecycle.Retired? && !n.lifecycle.FencedOff?
    && n.lease.Some? && n.confirmed && now < n.lease.value.expiresAt && n.lease.value.mode.Mutating?
  }

  /** `Accepts` is exactly "some claim passes `RequireAuthority` for mutation", for a node whose lease
      fields are filled in; the claim that passes is the node's own. */
  lemma AcceptsMeansSomeClaimPasses(n: NodeState, now: nat, shard: string)
    requires shard != "" && n.incarnation.Valid()
    requires n.lease.Some? ==> n.lease.value.epoch != 0 && n.lease.value.generation != 0 && n.lease.value.token != 0
    ensures Accepts(n, now) <==> exists c: Claim :: RequireAuthority(n, c, Mutating, now).Ok?
    ensures forall c: Claim :: RequireAuthority(n, c, Mutating, now).Ok? ==>
              c.incarnation == n.incarnation && c.token == n.lease.value.token &&
              c.epoch == n.lease.value.epoch && c.generation == n.lease.value.generation
  {
    if Accepts(n, now) {
      var l := n.lease.value;
      assert RequireAuthority(n, Claim(shard, n.incarnation, l.epoch, l.generation, l.token), Mutating, now).Ok?;
    }
  }

  predicate HasAuthority(n: NodeState, now: nat) {
    n.lease.Some? && n.confirmed && now < n.lease.value.expiresAt
  }

  // ---------------------------------------------------------------- operations

  function FenceNode(n: NodeState, target: Incarnation, fence: nat): (NodeState, Status) {
    if fence == 0 then (n, Err(InvalidArgument))
    else if target != n.incarnation then (n, Err(StaleIncarnation))
    else if n.lifecycle.FencedOff? && n.lastFence == fence then (n, SUCCESS)
    else
      (n.(lifecycle := FencedOff, confirmed := false, lastFence := fence,
          lease := if n.lease.Some? then Some(n.lease.value.(state := Fenced, attested := false)) else None),
       SUCCESS)
  }

  function GrantNode(n: NodeState, shard: string, epoch: nat, generation: nat, token: nat, mode: Mode, ttl: nat,
                     now: nat)
    : (NodeState, Status)
  {
    if n.lifecycle.Retired? then (n, Err(NotAuthoritative))
    else if epoch == 0 || generation == 0 then (n, Err(InvalidArgument))
    else if token == 0 || mode.NoAuthority? then (n, Err(Malformed))
    else if ttl == 0 || ttl > MAX_LEASE_TTL_MS then (n, Err(BoundsExceeded))
    else
      (n.(lifecycle := Serving, confirmed := true,
          lease := Some(Lease(0, shard, n.incarnation, epoch, generation, token, mode, Active, now,
                              AddU64(now, ttl), true))),
       SUCCESS)
  }

  function ReattestNode(n: NodeState, token: nat, now: nat): (NodeState, Status) {
    if n.lease.None? || n.lease.value.token != token then (n, Err(StaleAuthority))
    else if now >= n.lease.value.expiresAt then (n, Err(StaleAuthority))
    else (n.(confirmed := true, lease := Some(n.lease.value.(attested := true))), SUCCESS)
  }

  function RetireNode(n: NodeState): NodeState {
    n.(lifecycle := Retired, retiredMarker := true, confirmed := false,
       lease := if n.lease.Some? then Some(n.lease.value.(state := Revoked, attested := false)) else None)
  }

  /** A node as it starts, with the lease on record kept only as unconfirmed evidence. */
  function Booted(incarnation: Incarnation, lease: Option<Lease>, retired: bool): NodeState {
    NodeState(incarnation, if retired then Retired else Recovering, AsEvidence(lease), false, retired, 0)
  }

  function AsEvidence(lease: Option<Lease>): Option<Lease> {
    if lease.Some? then Some(lease.value.(attested := false)) else None
  }

  /** The next incarnation of the same component, with a greater boot counter. */
  function Reopened(n: NodeState, uuid: nat): NodeState {
    Booted(Incarnation(n.incarnation.component, uuid, n.incarnation.boot + 1), n.lease, n.retiredMarker)
  }

  function StartServing(n: NodeState): NodeState {
    if n.lifecycle.Recovering? then n.(lifecycle := Serving) else n
  }
}
