/** Runs of one node's authority operations, restarts included: exactly which operation makes a node a writer and which
    ends it, and what retirement does and does not guarantee. */
module NodeRuns {
  import opened Common
  import opened Authority
  import opened NodeAuthority

  datatype NodeOp =
    | FenceIt(target: Incarnation, fence: nat)
    | GrantIt(shard: string, epoch: nat, generation: nat, token: nat, mode: Mode, ttl: nat, now: nat)
    | ReattestIt(token: nat, now: nat)
    | RetireIt
    | RestartIt(uuid: nat)
    | ServeIt

  function ApplyNode(n: NodeState, op: NodeOp): NodeState {
    match op
    case FenceIt(target, fence) => FenceNode(n, target, fence).0
    case GrantIt(shard, epoch, generation, token, mode, ttl, now) =>
      GrantNode(n, shard, epoch, generation, token, mode, ttl, now).0
    case ReattestIt(token, now) => ReattestNode(n, token, now).0
    case RetireIt => RetireNode(n)
    case RestartIt(uuid) => Reopened(n, uuid)
    case ServeIt => StartServing(n)
  }

  function RunNode(n: NodeState, ops: seq<NodeOp>): NodeState {
    if ops == [] then n else ApplyNode(RunNode(n, ops[..|ops| - 1]), ops[|ops| - 1])
  }

  // ---------------------------------------------------------------- which claims a node lets through

  /** A claim passes exactly on a node that is neither retired nor fenced and has a confirmed lease in time, when it
      names this incarnation and the lease's epoch, generation and token, and the lease's mode suffices. */
  lemma ClaimPassesExactly(n: NodeState, c: Claim, required: Mode, now: nat)
    ensures RequireAuthority(n, c, required, now).Ok? <==>
            && !n.lifecycle.Retired? && !n.lifecycle.FencedOff? && n.lease.Some? && n.confirmed
            && now < n.lease.value.expiresAt && c.Valid() && c.incarnation == n.incarnation
            && c.epoch == n.lease.value.epoch && c.generation == n.lease.value.generation
            && c.token == n.lease.value.token
            && (required.Mutating? ==> n.lease.value.mode.Mutating?)
            && (!required.NoAuthority? ==> !n.lease.value.mode.NoAuthority?)
  {
  }

  // ---------------------------------------------------------------- who becomes a writer, and who stops being one

  predicate Usable(n: NodeState) { !n.lifecycle.Retired? && !n.lifecycle.FencedOff? }

  /** The grant is complete and in range. */
  predicate Complete(op: NodeOp)
    requires op.GrantIt?
  {
    op.epoch > 0 && op.generation > 0 && op.token > 0 && !op.mode.NoAuthority? && 0 < op.ttl <= MAX_LEASE_TTL_MS
  }

  predicate Taken(n: NodeState, op: NodeOp) { op.GrantIt? && Complete(op) && !n.lifecycle.Retired? }

  /** The token is the recorded one and the lease was in time when it was presented. */
  predicate Confirms(n: NodeState, op: NodeOp) {
    op.ReattestIt? && n.lease.Some? && n.lease.value.token == op.token && op.now < n.lease.value.expiresAt
  }

  /** A node that refuses mutating writes starts to accept them exactly by a mutating grant it takes, or by a
      re-attestation of the mutating lease it has on record while it is in service; the lease must be in time. */
  lemma BecomesWriterExactly(n: NodeState, op: NodeOp, now: nat)
    requires !Accepts(n, now)
    ensures Accepts(ApplyNode(n, op), now) <==>
            || (Taken(n, op) && op.mode.Mutating? && now < AddU64(op.now, op.ttl))
            || (Confirms(n, op) && Usable(n) && n.lease.value.mode.Mutating? && now < n.lease.value.expiresAt)
  {
  }

  /** A writer stops being one exactly by a fence for its own incarnation, retirement, a restart, or a grant it takes
      that is not mutating or not in time. */
  lemma StopsWritingExactly(n: NodeState, op: NodeOp, now: nat)
    requires Accepts(n, now)
    ensures !Accepts(ApplyNode(n, op), now) <==>
            || (op.FenceIt? && op.fence != 0 && op.target == n.incarnation)
            || op.RetireIt? || op.RestartIt?
            || (Taken(n, op) && !(op.mode.Mutating? && now < AddU64(op.now, op.ttl)))
  {
  }

  /** What the node then has on record: a fenced or retired node keeps its lease as evidence only, a restart keeps it
      unattested, a grant replaces it by exactly what was delivered, and a re-attestation attests it. */
  lemma LeaseOnRecord(n: NodeState, op: NodeOp)
    ensures var m := ApplyNode(n, op);
            match op
            case FenceIt(target, fence) =>
              fence != 0 && target == n.incarnation && !(n.lifecycle.FencedOff? && n.lastFence == fence) ==>
                && m.lifecycle.FencedOff? && m.lastFence == fence && (m.lease.Some? <==> n.lease.Some?)
                && (n.lease.Some? ==> m.lease.value == n.lease.value.(state := Fenced, attested := false))
            case GrantIt(shard, epoch, generation, token, mode, ttl, now) =>
              Taken(n, op) ==>
                && m.lifecycle.Serving? && m.confirmed
                && m.lease == Some(Lease(0, shard, n.incarnation, epoch, generation, token, mode, Active, now,
                                         AddU64(now, ttl), true))
            case ReattestIt(_, _) =>
              if Confirms(n, op) then m.confirmed && m.lease == Some(n.lease.value.(attested := true)) else m == n
            case RetireIt =>
              && m.lifecycle.Retired? && m.retiredMarker && (m.lease.Some? <==> n.lease.Some?)
              && (n.lease.Some? ==> m.lease.value == n.lease.value.(state := Revoked, attested := false))
            case RestartIt(uuid) =>
              && m.incarnation == n.incarnation.(uuid := uuid, boot := n.incarnation.boot + 1)
              && m.lifecycle == (if n.retiredMarker then Retired else Recovering) && !m.confirmed
              && (m.lease.Some? <==> n.lease.Some?)
              && (n.lease.Some? ==> m.lease.value == n.lease.value.(attested := false))
            case ServeIt => m == if n.lifecycle.Recovering? then n.(lifecycle := Serving) else n
  {
  }

  // ---------------------------------------------------------------- retirement

  /** The marker of a retired node is never taken back. */
  lemma {:induction false} MarkerStays(n: NodeState, ops: seq<NodeOp>)
    requires n.retiredMarker
    ensures RunNode(n, ops).retiredMarker
  {
    if ops != [] { MarkerStays(n, ops[..|ops| - 1]); }
  }

  /** A retired node leaves that state exactly by a fence for its own incarnation, which is not refused. */
  lemma LeavesRetirementExactly(n: NodeState, op: NodeOp)
    requires n.lifecycle.Retired? && n.retiredMarker
    ensures ApplyNode(n, op).lifecycle.Retired? <==>
            !(op.FenceIt? && op.fence != 0 && op.target == n.incarnation)
  {
  }

  /** So a retired node that accepts writes again was fenced since (operation `i`) and granted authority after that
      (operation `j`), with no restart between the two. */
  lemma {:induction false} WriterAfterRetirement(n: NodeState, ops: seq<NodeOp>) returns (i: nat, j: nat)
    requires n.lifecycle.Retired? && n.retiredMarker && !RunNode(n, ops).lifecycle.Retired?
    ensures i < |ops| && ops[i].FenceIt? && ops[i].fence != 0
    ensures forall k :: i < k < |ops| ==> !ops[k].RestartIt? && !ops[k].RetireIt?
    ensures !RunNode(n, ops).lifecycle.FencedOff? ==> i < j < |ops| && ops[j].GrantIt?
  {
    var last := |ops| - 1;
    var before := RunNode(n, ops[..last]);
    MarkerStays(n, ops[..last]);
    if before.lifecycle.Retired? {
      LeavesRetirementExactly(before, ops[last]);
      i, j := last, 0;
    } else {
      i, j := WriterAfterRetirement(n, ops[..last]);
      if before.lifecycle.FencedOff? && !RunNode(n, ops).lifecycle.FencedOff? { j := last; }
      forall k | i < k < |ops| ensures !ops[k].RestartIt? && !ops[k].RetireIt? {
        if k < last { assert ops[..last][k] == ops[k]; }
      }
    }
  }

  /** Without a fence retirement is for good: whatever else happens, the node accepts nothing. */
  lemma {:induction false} RetiredForGood(n: NodeState, ops: seq<NodeOp>, now: nat)
    requires n.lifecycle.Retired? && n.retiredMarker && forall k :: 0 <= k < |ops| ==> !ops[k].FenceIt?
    ensures RunNode(n, ops).lifecycle.Retired? && !Accepts(RunNode(n, ops), now)
  {
    if !RunNode(n, ops).lifecycle.Retired? {
      var i, j := WriterAfterRetirement(n, ops);
    }
  }

  /** With one it is not: a fence and a grant make every retired node a writer again. */
  lemma FencedRetiredNodeWrites(n: NodeState, fence: nat, grant: NodeOp, now: nat)
    requires n.lifecycle.Retired? && fence != 0
    requires grant.GrantIt? && Complete(grant) && grant.mode.Mutating? && now < AddU64(grant.now, grant.ttl)
    ensures Accepts(ApplyNode(ApplyNode(n, FenceIt(n.incarnation, fence)), grant), now)
  {
  }
}
