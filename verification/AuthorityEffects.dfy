/** What each registry operation does to a record and what it answers: when it succeeds, which entries it changes, and
    that every other entry is as time alone would have left it. */
module AuthorityEffects {
  import opened Common
  import opened Authority
  import opened AuthorityRuns
  import opened AuthorityClaims

  // ---------------------------------------------------------------- time

  lemma ExpiryKeepsEffect(l: Lease, now: nat, later: nat)
    requires now <= later
    ensures EffectiveState(Expire(l, now), later) == EffectiveState(l, later)
  {
  }

  /** Marking leases as expired is unobservable: every claim is answered, then and later, as without it; and no lease
      whose time is up is left marked as live. */
  lemma ExpiryIsUnobservable(s: ShardAuthority, now: nat, later: nat, c: Claim, required: Mode)
    requires now <= later
    ensures ValidateClaim(ExpireDue(s, now), c, required, later) == ValidateClaim(s, c, required, later)
    ensures forall l :: l in ExpireDue(s, now).leases && (l.state.Active? || l.state.Fencing?) ==> now < l.expiresAt
  {
    var e := ExpireAll(s.leases, now);
    var i := IndexWhere(s.leases, (l: Lease) => l.holder == c.incarnation && l.token == c.token);
    IndexWhereUnique(e, (l: Lease) => l.holder == c.incarnation && l.token == c.token, i);
    if i < |e| { ExpiryKeepsEffect(s.leases[i], now, later); }
  }

  lemma {:induction false} ScanIgnoresExpiry(s: ShardAuthority, now: nat, later: nat, n: nat)
    requires now <= later && n <= |s.leases|
    ensures Scan(ExpireDue(s, now), later, n) == Scan(s, later, n)
  {
    if n > 0 {
      ScanIgnoresExpiry(s, now, later, n - 1);
      ExpiryKeepsEffect(s.leases[n - 1], now, later);
    }
  }

  /** The view does not depend on it either. */
  lemma ViewIgnoresExpiry(s: ShardAuthority, now: nat, later: nat)
    requires now <= later
    ensures ViewOf(ExpireDue(s, now), later) == ViewOf(s, later)
  {
    ScanIgnoresExpiry(s, now, later, |s.leases|);
  }

  // ---------------------------------------------------------------- finding entries

  /** Entry `i` is the first lease of this holder with this token; `i` is the number of entries if there is none. */
  predicate FirstOf(leases: seq<Lease>, holder: Incarnation, token: nat, i: nat) {
    && i <= |leases|
    && (forall j :: 0 <= j < i ==> leases[j].holder != holder || leases[j].token != token)
    && (i < |leases| ==> leases[i].holder == holder && leases[i].token == token)
  }

  predicate FirstId(leases: seq<Lease>, id: nat, i: nat) {
    i <= |leases| && (forall j :: 0 <= j < i ==> leases[j].id != id) && (i < |leases| ==> leases[i].id == id)
  }

  predicate FirstFence(fences: seq<Fence>, id: nat, k: nat) {
    k <= |fences| && (forall j :: 0 <= j < k ==> fences[j].id != id) && (k < |fences| ==> fences[k].id == id)
  }

  /** Apart from entry `i`, which is `l`, time alone passed over the leases. */
  predicate OnlyAt(before: seq<Lease>, after: seq<Lease>, now: nat, i: nat, l: Lease) {
    |after| == |before| && forall j :: 0 <= j < |after| ==> after[j] == if j == i then l else Expire(before[j], now)
  }

  predicate InTime(l: Lease, now: nat) { l.state.Active? && now < l.expiresAt }

  // ---------------------------------------------------------------- re-attestation

  /** A re-attestation succeeds exactly when the first lease of that holder and token is active and in time, and then
      attests that lease and no other. */
  lemma ReattestExactly(s: ShardAuthority, holder: Incarnation, token: nat, now: nat, i: nat)
    requires FirstOf(s.leases, holder, token, i)
    ensures var (t, r) := Reattest(s, holder, token, now);
            && r == (if i < |s.leases| && InTime(s.leases[i], now) then SUCCESS else Err(StaleAuthority))
            && t == s.(leases := t.leases)
            && (r.Ok? ==> OnlyAt(s.leases, t.leases, now, i, s.leases[i].(attested := true)))
            && (r.Err? ==> t.leases == ExpireAll(s.leases, now))
  {
    var e := ExpireAll(s.leases, now);
    IndexWhereUnique(e, (l: Lease) => l.holder == holder && l.token == token, i);
  }

  /** After a restore no claim is accepted, for any mode. */
  lemma RestoredAcceptsNothing(s: ShardAuthority, c: Claim, required: Mode, now: nat)
    requires Restore(s).Ok?
    ensures ValidateClaim(Restore(s).value, c, required, now).Err?
  {
  }

  /** The first lease of an entry's holder and token, found in a copy that keeps both. */
  lemma FirstInCopy(leases: seq<Lease>, copy: seq<Lease>, i: nat) returns (k: nat)
    requires i < |leases| == |copy|
    requires forall j :: 0 <= j < |copy| ==> copy[j].holder == leases[j].holder && copy[j].token == leases[j].token
    ensures FirstOf(copy, leases[i].holder, leases[i].token, k) && k <= i && (k == i <==> FirstOfItsToken(leases, i))
  {
    var holder, token := leases[i].holder, leases[i].token;
    k := IndexWhere(copy, (l: Lease) => l.holder == holder && l.token == token);
    if k < i {
      assert leases[k].holder == holder && leases[k].token == token;
    } else {
      forall j | 0 <= j < i ensures !(leases[j].holder == holder && leases[j].token == token) {
        assert !(copy[j].holder == holder && copy[j].token == token);
      }
    }
  }

  /** The claim of an entry of an unattested copy, once its holder and token are re-attested. */
  lemma ReattestedClaim(s: ShardAuthority, r: ShardAuthority, i: nat, now: nat)
    requires SingleSlot(s.leases) && Current(s) && i < |s.leases| && Busy(s.leases[i]) && LeaseOk(s.leases[i], s)
    requires s.shard != "" && r == s.(leases := Unattested(s.leases))
    ensures var t := Reattest(r, s.leases[i].holder, s.leases[i].token, now).0;
            ValidateClaim(t, ClaimOf(s.leases[i]), Mutating, now).Ok? <==>
            InTime(s.leases[i], now) && FirstOfItsToken(s.leases, i)
  {
    var l := s.leases[i];
    var k := FirstInCopy(s.leases, r.leases, i);
    ReattestExactly(r, l.holder, l.token, now, k);
    ClaimAcceptedExactly(Reattest(r, l.holder, l.token, now).0, ClaimOf(l), Mutating, now, k);
    if k < i { assert !Busy(s.leases[k]); }
  }

  /** After a restore the slot's lease is refused its own claim; a re-attestation of its holder and token makes the
      claim good again, exactly when it would be with the lease attested all along. */
  lemma ReattestationRestoresClaim(s: ShardAuthority, i: nat, now: nat)
    requires WellFormed(s) && Current(s) && i < |s.leases| && Busy(s.leases[i])
    ensures Restore(s).Ok? && ValidateClaim(Restore(s).value, ClaimOf(s.leases[i]), Mutating, now).Err?
    ensures var t := Reattest(Restore(s).value, s.leases[i].holder, s.leases[i].token, now).0;
            ValidateClaim(t, ClaimOf(s.leases[i]), Mutating, now).Ok? <==>
            InTime(s.leases[i], now) && FirstOfItsToken(s.leases, i)
    ensures var attested := s.(leases := s.leases[i := s.leases[i].(attested := true)]);
            ValidateClaim(attested, ClaimOf(s.leases[i]), Mutating, now).Ok? <==>
            InTime(s.leases[i], now) && FirstOfItsToken(s.leases, i)
  {
    ReloadClearsOnlyAttestation(s);
    RestoredAcceptsNothing(s, ClaimOf(s.leases[i]), Mutating, now);
    AttestedClaim(s, s.leases[i := s.leases[i].(attested := true)], i, now);
    assert LeaseOk(s.leases[i], s);
    ReattestedClaim(s, Restore(s).value, i, now);
  }

  lemma AttestedClaim(s: ShardAuthority, leases: seq<Lease>, i: nat, now: nat)
    requires WellFormed(s) && Current(s) && i < |s.leases| && Busy(s.leases[i])
    requires leases == s.leases[i := s.leases[i].(attested := true)]
    ensures ValidateClaim(s.(leases := leases), ClaimOf(s.leases[i]), Mutating, now).Ok? <==>
            InTime(s.leases[i], now) && FirstOfItsToken(s.leases, i)
  {
    var t := s.(leases := leases);
    forall j | 0 <= j < |leases| ensures LeaseOk(leases[j], t) { assert LeaseOk(s.leases[j], s); }
    OwnClaimExactly(t, i, now);
    assert forall j :: 0 <= j < |leases| ==>
             leases[j].holder == s.leases[j].holder && leases[j].token == s.leases[j].token;
  }

  // ---------------------------------------------------------------- claims

  /** A claim is accepted exactly when it is complete, carries the record's epoch and generation, and the first lease of
      its holder and token is active, in time, attested and of a mode that suffices. */
  lemma ClaimAcceptedExactly(s: ShardAuthority, c: Claim, required: Mode, now: nat, i: nat)
    requires FirstOf(s.leases, c.incarnation, c.token, i)
    ensures ValidateClaim(s, c, required, now).Ok? <==>
            && c.Valid() && c.epoch == s.epoch && c.generation == s.generation
            && i < |s.leases| && InTime(s.leases[i], now) && s.leases[i].attested
            && (required.Mutating? ==> s.leases[i].mode.Mutating?)
            && (!required.NoAuthority? ==> !s.leases[i].mode.NoAuthority?)
  {
    IndexWhereUnique(s.leases, (l: Lease) => l.holder == c.incarnation && l.token == c.token, i);
  }

  /** Which refusal a claim meets: an incomplete one, an old epoch, an old generation, a lease that is not there or not
      good any more, or a mode that does not suffice, in this order. */
  lemma ClaimRefusedExactly(s: ShardAuthority, c: Claim, required: Mode, now: nat, i: nat)
    requires FirstOf(s.leases, c.incarnation, c.token, i)
    ensures var r := ValidateClaim(s, c, required, now);
            && (r == Err(InvalidArgument) <==> !c.Valid())
            && (r == Err(StaleEpoch) <==> c.Valid() && c.epoch != s.epoch)
            && (r == Err(StaleGeneration) <==> c.Valid() && c.epoch == s.epoch && c.generation != s.generation)
            && (r == Err(StaleAuthority) <==>
                  && c.Valid() && c.epoch == s.epoch && c.generation == s.generation
                  && !(i < |s.leases| && InTime(s.leases[i], now) && s.leases[i].attested))
  {
    IndexWhereUnique(s.leases, (l: Lease) => l.holder == c.incarnation && l.token == c.token, i);
  }

  // ---------------------------------------------------------------- renewal, revocation, epochs

  /** A renewal by id succeeds exactly when the time-to-live is in range and the lease is active and in time, and then
      moves the expiry of that lease alone. */
  lemma RenewExactly(s: ShardAuthority, id: nat, ttl: nat, now: nat, i: nat)
    requires FirstId(s.leases, id, i)
    ensures var (t, r) := Renew(s, id, ttl, now);
            && r == (if ttl == 0 || ttl > MAX_LEASE_TTL_MS then Err(BoundsExceeded)
                     else if i == |s.leases| then Err(NotFound)
                     else if !InTime(s.leases[i], now) then Err(StaleAuthority)
                     else SUCCESS)
            && t == s.(leases := t.leases)
            && (r.Ok? ==> OnlyAt(s.leases, t.leases, now, i, s.leases[i].(expiresAt := AddU64(now, ttl))))
            && (r.Err? ==> t.leases == s.leases || t.leases == ExpireAll(s.leases, now))
  {
    var e := ExpireAll(s.leases, now);
    IndexWhereUnique(e, (l: Lease) => l.id == id, i);
  }

  /** A revocation succeeds exactly when the id is on record, and then revokes that lease alone. */
  lemma RevokeExactly(s: ShardAuthority, id: nat, i: nat)
    requires FirstId(s.leases, id, i)
    ensures var (t, r) := Revoke(s, id);
            && (r.Ok? <==> i < |s.leases|) && t == s.(leases := t.leases) && |t.leases| == |s.leases|
            && forall j :: 0 <= j < |s.leases| ==>
                 t.leases[j] == if j == i then s.leases[j].(state := Revoked) else s.leases[j]
  {
    IndexWhereUnique(s.leases, (l: Lease) => l.id == id, i);
  }

  /** Only a greater epoch is taken; it starts at generation one with every live lease revoked and everything else as
      it was. */
  lemma AdvanceExactly(s: ShardAuthority, epoch: nat)
    ensures var (t, r) := AdvanceEpoch(s, epoch);
            && (r.Ok? <==> epoch > s.epoch) && (r.Err? ==> t == s)
            && (r.Ok? ==>
                  && t == s.(epoch := epoch, generation := 1, leases := t.leases) && |t.leases| == |s.leases|
                  && forall j :: 0 <= j < |s.leases| ==>
                       if s.leases[j].state.Active? || s.leases[j].state.Fencing?
                       then t.leases[j] == s.leases[j].(state := Revoked)
                       else t.leases[j] == s.leases[j])
  {
  }

  // ---------------------------------------------------------------- fences

  /** An acknowledgement succeeds exactly when the fence is on record for that holder. The first one marks the fence and
      fences off the lease it names, if that lease is being fenced; nothing else changes. */
  lemma AcknowledgeExactly(s: ShardAuthority, holder: Incarnation, fence: nat, now: nat, k: nat)
    requires FirstFence(s.fences, fence, k)
    ensures var (t, r) := AcknowledgeFence(s, holder, fence, now);
            && r == (if k == |s.fences| then Err(NotFound)
                     else if s.fences[k].target != holder then Err(StaleIncarnation)
                     else SUCCESS)
            && (r.Err? || s.fences[k].acknowledged ==> t == s)
            && (r.Ok? && !s.fences[k].acknowledged ==>
                  && t == s.(leases := t.leases, fences := t.fences) && |t.leases| == |s.leases|
                  && t.fences == s.fences[k := s.fences[k].(acknowledged := true, acknowledgedAt := now)]
                  && forall j :: 0 <= j < |s.leases| ==>
                       if s.leases[j].id == s.fences[k].fencedLease && s.leases[j].state.Fencing?
                       then t.leases[j] == s.leases[j].(state := Fenced)
                       else t.leases[j] == s.leases[j])
  {
    IndexWhereUnique(s.fences, (f: Fence) => f.id == fence, k);
  }

  /** A fence request succeeds exactly when the target is named in full, no fence waits for it, it holds an active
      mutating lease in time (entry `i`), and the counters last. It moves the generation, marks the lease as being
      fenced and adds one waiting fence for it. */
  lemma FenceExactly(s: ShardAuthority, target: Incarnation, now: nat, i: nat)
    requires SingleSlot(s.leases) && |s.fences| <= MAX_FENCE_HISTORY
    requires i <= |s.leases| && (i < |s.leases| ==> HoldsMutation(s.leases[i], target, now))
    requires i == |s.leases| ==> forall j :: 0 <= j < |s.leases| ==> !HoldsMutation(s.leases[j], target, now)
    ensures var (t, r) := RequestFence(s, target, now);
            && (r.Ok? <==> target.Valid() && (forall f :: f in s.fences ==> f.target != target || f.acknowledged)
                           && i < |s.leases| && s.generation < MAX_U64 && s.nextFenceId < MAX_U64)
            && (r.Ok? ==>
                  && t == s.(generation := s.generation + 1, leases := t.leases, fences := t.fences,
                             nextFenceId := s.nextFenceId + 1)
                  && OnlyAt(s.leases, t.leases, now, i, s.leases[i].(state := Fencing))
                  && |t.fences| > 0 && t.fences[|t.fences| - 1]
                     == Fence(s.nextFenceId, target, s.epoch, s.generation + 1, s.leases[i].id, now, 0, false)
                  && t.fences[..|t.fences| - 1]
                     == s.fences[if |s.fences| == MAX_FENCE_HISTORY then 1 else 0..])
            && (r.Err? ==> t == s || t == ExpireDue(s, now))
            && (r == Err(DuplicateFrame) <==>
                  target.Valid() && exists f :: f in s.fences && f.target == target && !f.acknowledged)
            && (target.Valid() && i == |s.leases| ==> r == Err(DuplicateFrame) || r == Err(NotFound))
  {
    var e := ExpireAll(s.leases, now);
    forall j | 0 <= j < |e| ensures HoldsMutation(e[j], target, now) == HoldsMutation(s.leases[j], target, now) {}
    if i < |e| {
      assert Busy(s.leases[i]);
      forall j | 0 <= j < i ensures !HoldsMutation(e[j], target, now) { assert !Busy(s.leases[j]); }
    }
    IndexWhereUnique(e, (l: Lease) => HoldsMutation(l, target, now), i);
    var k := IndexWhere(s.fences, (f: Fence) => Outstanding(f, target));
    if k == |s.fences| {
      assert forall f :: f in s.fences ==> !Outstanding(f, target);
    } else {
      assert s.fences[k] in s.fences;
    }
  }

  // ---------------------------------------------------------------- grants

  /** A request is in order exactly when its holder is named in full and its time-to-live is positive and at most a day;
      any other changes nothing. */
  lemma RequestsExactly(s: ShardAuthority, req: GrantRequest, now: nat, slotNow: nat, token: nat)
    ensures CheckRequest(req).Ok? <==> req.holder.Valid() && 0 < req.ttl <= 86400000
    ensures CheckRequest(req).Err? ==>
              Grant(s, req, now, slotNow, token).1.Err? && Grant(s, req, now, slotNow, token).0 == s
  {
  }

  /** A read-only request that finds no lease of its own is refused while eight such leases are active. */
  lemma ReadersAreLimited(s: ShardAuthority, req: GrantRequest, now: nat, token: nat)
    requires CheckRequest(req).Ok? && req.mode.ReadOnlyShared? && CountActiveReadOnly(s.leases, now) >= 8
    requires forall i :: 0 <= i < |s.leases| ==> !SameHolderAndMode(s.leases[i], req, now)
    ensures Grant(s, req, now, now, token) == (ExpireDue(s, now), Err(ResourceExhausted))
  {
    var e := ExpireAll(s.leases, now);
    ExpiryKeepsCount(s.leases, now);
    forall i | 0 <= i < |e| ensures !SameHolderAndMode(e[i], req, now) {
      assert SameHolderAndMode(e[i], req, now) == SameHolderAndMode(s.leases[i], req, now);
    }
    IndexWhereUnique(e, (l: Lease) => SameHolderAndMode(l, req, now), |e|);
  }

  /** The lease a grant creates. */
  lemma CreatedLease(s: ShardAuthority, req: GrantRequest, now: nat, token: nat)
    requires CreatesLease(s, req, now) && |s.leases| <= MAX_LEASE_HISTORY
    ensures var (t, r) := Grant(s, req, now, now, token);
            var generation := if req.mode.ReadOnlyShared? then s.generation else s.generation + 1;
            && r == Ok(Lease(s.nextLeaseId, s.shard, req.holder, s.epoch, generation, token, req.mode, Active, now,
                             AddU64(now, req.ttl), true))
            && t == s.(generation := generation, leases := t.leases, nextLeaseId := s.nextLeaseId + 1)
            && |t.leases| > 0 && t.leases[|t.leases| - 1] == r.value
            && t.leases[..|t.leases| - 1]
               == ExpireAll(s.leases, now)[if |s.leases| == MAX_LEASE_HISTORY then 1 else 0..]
  {
    CreatedAppends(s, req, now, token);
    CreatesExactly(s, req, now, token);
  }

  /** The lease that stands in the way of a mutating request (entry `i`) is renewed exactly when it is the requester's
      own and not being fenced; the request is refused as a conflict otherwise. */
  lemma BlockedGrantExactly(s: ShardAuthority, req: GrantRequest, now: nat, token: nat, i: nat)
    requires SingleSlot(s.leases) && IdsOrdered(s.leases, s.nextLeaseId) && CheckRequest(req).Ok? && req.mode.Mutating?
    requires i < |s.leases| && Blocks(s.leases[i], now)
    ensures var (t, r) := Grant(s, req, now, now, token);
            var renewed := s.leases[i].(expiresAt := AddU64(now, req.ttl), attested := true);
            && t == s.(leases := t.leases)
            && (if s.leases[i].holder == req.holder && s.leases[i].state.Active?
                then r == Ok(renewed) && OnlyAt(s.leases, t.leases, now, i, renewed)
                else r == Err(AuthorityConflict) && t == ExpireDue(s, now))
  {
    var e := ExpireAll(s.leases, now);
    forall j | 0 <= j < i ensures !Blocks(e[j], now) { assert !Busy(s.leases[j]); }
    IndexWhereUnique(e, (l: Lease) => Blocks(l, now), i);
    IndexWhereUnique(e, (l: Lease) => l.id == e[i].id, i);
  }

  // ---------------------------------------------------------------- views

  predicate ReadableNow(l: Lease, now: nat) { l.mode.ReadOnlyShared? && InTime(l, now) }

  lemma {:induction false} ScanLists(s: ShardAuthority, now: nat, n: nat)
    requires n <= |s.leases| && IdsOrdered(s.leases, s.nextLeaseId)
    ensures var v := Scan(s, now, n);
            && v.epoch == s.epoch && v.generation == s.generation && v.fences == s.fences
            && (forall l :: l in v.readOnly <==> l in s.leases[..n] && ReadableNow(l, now))
            && (forall j, k :: 0 <= j < k < |v.readOnly| ==> v.readOnly[j].id < v.readOnly[k].id)
  {
    if n > 0 {
      ScanLists(s, now, n - 1);
      var before, l := Scan(s, now, n - 1), s.leases[n - 1];
      assert s.leases[..n] == s.leases[..n - 1] + [l];
      forall j | 0 <= j < |before.readOnly| ensures before.readOnly[j].id < l.id {
        assert before.readOnly[j] in before.readOnly;
        var i :| 0 <= i < n - 1 && s.leases[i] == before.readOnly[j];
      }
    }
  }

  lemma {:induction false} ScanCounts(s: ShardAuthority, now: nat, n: nat)
    requires n <= |s.leases|
    ensures |Scan(s, now, n).readOnly| == CountActiveReadOnly(s.leases[..n], now)
  {
    if n > 0 {
      ScanCounts(s, now, n - 1);
      assert s.leases[..n][..n - 1] == s.leases[..n - 1];
    }
  }

  /** A view carries the record's epoch, generation and fences, and lists exactly the read-only leases that are active
      and in time, in the order of their ids: as many as count against the limit on them. */
  lemma ViewListsExactly(s: ShardAuthority, now: nat)
    requires IdsOrdered(s.leases, s.nextLeaseId)
    ensures var v := ViewOf(s, now);
            && v.epoch == s.epoch && v.generation == s.generation && v.fences == s.fences
            && (forall l :: l in v.readOnly <==> l in s.leases && ReadableNow(l, now))
            && (forall j, k :: 0 <= j < k < |v.readOnly| ==> v.readOnly[j].id < v.readOnly[k].id)
            && |v.readOnly| == CountActiveReadOnly(s.leases, now)
  {
    ScanLists(s, now, |s.leases|);
    ScanCounts(s, now, |s.leases|);
    assert s.leases[..|s.leases|] == s.leases;
  }

  // ---------------------------------------------------------------- restoring

  /** A saved record is restored exactly when it and each of its leases and fences is complete and every lease is of
      this shard; nothing but attestation is lost. */
  lemma RestoresExactly(saved: ShardAuthority)
    ensures Restore(saved).Ok? <==>
            && saved.shard != "" && saved.epoch != 0 && saved.generation != 0
            && (forall l :: l in saved.leases ==>
                  && l.id != 0 && l.holder.Valid() && l.epoch != 0 && l.generation != 0 && l.token != 0
                  && l.shard == saved.shard)
            && (forall f :: f in saved.fences ==> f.id != 0 && f.target.Valid() && f.epoch != 0 && f.generation != 0)
    ensures Restore(saved).Ok? ==>
              var r := Restore(saved).value;
              && r == saved.(leases := r.leases) && |r.leases| == |saved.leases|
              && forall j :: 0 <= j < |r.leases| ==> r.leases[j] == saved.leases[j].(attested := false)
  {
    var i := IndexWhere(saved.leases, (l: Lease) => LeaseFault(l, saved.shard).Some?);
    var k := IndexWhere(saved.fences, (f: Fence) => !LoadableFence(f));
    if i < |saved.leases| { assert saved.leases[i] in saved.leases; }
    if k < |saved.fences| { assert saved.fences[k] in saved.fences; }
  }

  // ---------------------------------------------------------------- a handover through a fence

  /** With its one live lease fenced off the record has a free slot. */
  lemma SlotFreed(s: ShardAuthority, a: ShardAuthority, i: nat, now: nat)
    requires IdsOrdered(s.leases, s.nextLeaseId) && SingleSlot(s.leases) && i < |s.leases| && Busy(s.leases[i])
    requires OnlyAt(s.leases, a.leases, now, i, s.leases[i].(state := Fencing))
    ensures forall j :: 0 <= j < |a.leases| ==> !Busy(CloseFenced(a.leases[j], s.leases[i].id))
  {
    forall j | 0 <= j < |a.leases| ensures !Busy(CloseFenced(a.leases[j], s.leases[i].id)) {
      if j != i { assert !Busy(s.leases[j]); }
    }
  }

  /** The newest fence waits for the holder of entry `i`; its acknowledgement frees the slot. */
  lemma AcknowledgedFrees(s: ShardAuthority, a: ShardAuthority, b: ShardAuthority, i: nat, now: nat)
    requires WellFormed(s) && FencesOk(a) && i < |s.leases| && Busy(s.leases[i])
    requires OnlyAt(s.leases, a.leases, now, i, s.leases[i].(state := Fencing))
    requires |a.fences| > 0 && a.fences[|a.fences| - 1]
             == Fence(s.nextFenceId, s.leases[i].holder, s.epoch, s.generation + 1, s.leases[i].id, now, 0, false)
    requires b == AcknowledgeFence(a, s.leases[i].holder, s.nextFenceId, now).0
    ensures AcknowledgeFence(a, s.leases[i].holder, s.nextFenceId, now).1.Ok?
    ensures b == a.(leases := b.leases, fences := b.fences)
    ensures forall j :: 0 <= j < |b.leases| ==> !Busy(b.leases[j])
  {
    var k := |a.fences| - 1;
    AcknowledgeExactly(a, s.leases[i].holder, s.nextFenceId, now, k);
    SlotFreed(s, a, i, now);
  }

  /** A mutating request on a record with no live mutating lease is granted a new one. */
  lemma FreeSlotCreates(b: ShardAuthority, req: GrantRequest, now: nat)
    requires forall j :: 0 <= j < |b.leases| ==> !Busy(b.leases[j])
    requires CheckRequest(req).Ok? && req.mode.Mutating? && b.generation < MAX_U64 && b.nextLeaseId < MAX_U64
    ensures CreatesLease(b, req, now)
  {
  }

  /** While its one live lease is being fenced, a record grants the slot to nobody. */
  lemma FencingBlocks(s: ShardAuthority, a: ShardAuthority, i: nat, req: GrantRequest, now: nat, token: nat)
    requires SingleSlot(a.leases) && IdsOrdered(a.leases, a.nextLeaseId) && i < |s.leases| && InTime(s.leases[i], now)
    requires OnlyAt(s.leases, a.leases, now, i, s.leases[i].(state := Fencing)) && s.leases[i].mode.Mutating?
    requires CheckRequest(req).Ok? && req.mode.Mutating?
    ensures Grant(a, req, now, now, token).1 == Err(AuthorityConflict)
  {
    BlockedGrantExactly(a, req, now, token, i);
  }

  /** While a holder is being fenced no grant of the slot succeeds, to anyone; once it acknowledges, the next request is
      granted a new lease. */
  lemma HandoverThroughFence(
    s: ShardAuthority, i: nat, a: ShardAuthority, b: ShardAuthority, req: GrantRequest, now: nat, token: nat)
    requires WellFormed(s) && i < |s.leases| && s.leases[i].mode.Mutating? && InTime(s.leases[i], now)
    requires forall f :: f in s.fences ==> f.target != s.leases[i].holder || f.acknowledged
    requires s.generation + 1 < MAX_U64 && s.nextFenceId < MAX_U64 && s.nextLeaseId < MAX_U64
    requires CheckRequest(req).Ok? && req.mode.Mutating?
    requires a == RequestFence(s, s.leases[i].holder, now).0
    requires b == AcknowledgeFence(a, s.leases[i].holder, s.nextFenceId, now).0
    ensures RequestFence(s, s.leases[i].holder, now).1.Ok?
    ensures Grant(a, req, now, now, token).1 == Err(AuthorityConflict)
    ensures AcknowledgeFence(a, s.leases[i].holder, s.nextFenceId, now).1.Ok? && CreatesLease(b, req, now)
  {
    assert LeaseOk(s.leases[i], s);
    FenceExactly(s, s.leases[i].holder, now, i);
    StepKeepsWellFormed(s, FenceOp(s.leases[i].holder, now));
    FencingBlocks(s, a, i, req, now, token);
    AcknowledgedFrees(s, a, b, i, now);
    FreeSlotCreates(b, req, now);
  }
}
