/** The registry object: a table of shard records that its operations update in place, with the scans
    of the lease and fence lists written as loops. Each operation is proved to be the corresponding
    decision of module `Authority` on the addressed shard, and to leave every other shard alone. */
module AuthorityRegistry {
  import opened Common
  import A = Authority
  import R = AuthorityRuns

  /** The records of the shards in `m`, each restored from its saved form. */
  function RestoredShards(m: map<string, A.ShardAuthority>): map<string, A.ShardAuthority> {
    map k | k in m :: Cleared(m[k])
  }

  function Cleared(s: A.ShardAuthority): A.ShardAuthority {
    s.(leases := A.Unattested(s.leases))
  }

  /** `entries` is a saved form of `m`: one entry for each shard. */
  predicate SavedFormOf(entries: seq<A.ShardAuthority>, m: map<string, A.ShardAuthority>) {
    && (forall i :: 0 <= i < |entries| ==> entries[i].shard in m && m[entries[i].shard] == entries[i])
    && (forall i, j :: 0 <= i < j < |entries| ==> entries[i].shard != entries[j].shard)
    && (forall k :: k in m ==> exists i :: 0 <= i < |entries| && entries[i].shard == k)
  }

  /** Files results under their names in order; a failed result or a repeated name fails the whole. */
  function Collect<T>(names: seq<string>, results: seq<Result<T>>): Result<map<string, T>>
    requires |names| == |results|
  {
    if names == [] then Ok(map[])
    else
      var n := |names| - 1;
      var before := Collect(names[..n], results[..n]);
      if before.Err? then before
      else if results[n].Err? then Err(results[n].code)
      else if names[n] in before.value then Err(IntegrityFailure)
      else Ok(before.value[names[n] := results[n].value])
  }

  function Names(entries: seq<A.ShardAuthority>): (r: seq<string>)
    ensures |r| == |entries|
  {
    seq(|entries|, i requires 0 <= i < |entries| => entries[i].shard)
  }

  function Restorations(entries: seq<A.ShardAuthority>): (r: seq<Result<A.ShardAuthority>>)
    ensures |r| == |entries|
  {
    seq(|entries|, i requires 0 <= i < |entries| => A.Restore(entries[i]))
  }

  /** Restoring saved entries in order; a refused or repeated entry refuses the whole file. */
  function LoadAll(entries: seq<A.ShardAuthority>): Result<map<string, A.ShardAuthority>> {
    Collect(Names(entries), Restorations(entries))
  }

  lemma {:induction false} CollectDistinct<T>(names: seq<string>, results: seq<Result<T>>, n: nat)
    requires |names| == |results| && n <= |names|
    requires forall i :: 0 <= i < |results| ==> results[i].Ok?
    requires forall i, j :: 0 <= i < j < |names| ==> names[i] != names[j]
    ensures Collect(names[..n], results[..n]).Ok?
    ensures forall k :: k in Collect(names[..n], results[..n]).value ==> exists j :: 0 <= j < n && names[j] == k
    ensures forall j :: 0 <= j < n ==>
              names[j] in Collect(names[..n], results[..n]).value &&
              Collect(names[..n], results[..n]).value[names[j]] == results[j].value
  {
    if n > 0 {
      CollectDistinct(names, results, n - 1);
      assert names[..n][..n - 1] == names[..n - 1] && results[..n][..n - 1] == results[..n - 1];
    }
  }

  /** Results are collected exactly when all of them succeeded and no name comes twice. */
  lemma {:induction false} CollectedExactly<T>(names: seq<string>, results: seq<Result<T>>)
    requires |names| == |results|
    ensures Collect(names, results).Ok? <==>
            && (forall i :: 0 <= i < |results| ==> results[i].Ok?)
            && (forall i, j :: 0 <= i < j < |names| ==> names[i] != names[j])
    ensures Collect(names, results).Ok? ==> forall k :: k in Collect(names, results).value <==> k in names
  {
    if names != [] {
      var n := |names| - 1;
      CollectedExactly(names[..n], results[..n]);
      assert names == names[..n] + [names[n]] && results == results[..n] + [results[n]];
    }
  }

  /** A saved table loads exactly when each of its entries restores and no shard comes twice. */
  lemma LoadsExactly(entries: seq<A.ShardAuthority>)
    ensures LoadAll(entries).Ok? <==>
            && (forall i :: 0 <= i < |entries| ==> A.Restore(entries[i]).Ok?)
            && (forall i, j :: 0 <= i < j < |entries| ==> entries[i].shard != entries[j].shard)
  {
    CollectedExactly(Names(entries), Restorations(entries));
    forall i | 0 <= i < |entries|
      ensures Names(entries)[i] == entries[i].shard && Restorations(entries)[i] == A.Restore(entries[i])
    {
    }
  }

  lemma CollectStep<T>(names: seq<string>, results: seq<Result<T>>, n: nat)
    requires |names| == |results| && n < |names| && Collect(names[..n], results[..n]).Ok?
    ensures Collect(names[..n + 1], results[..n + 1]) ==
            var before := Collect(names[..n], results[..n]);
            if results[n].Err? then Err(results[n].code)
            else if names[n] in before.value then Err(IntegrityFailure)
            else Ok(before.value[names[n] := results[n].value])
  {
    assert names[..n + 1][..n] == names[..n] && results[..n + 1][..n] == results[..n];
  }

  /** A failure met in a prefix is the failure of the whole. */
  lemma {:induction false} FailedEarly<T>(names: seq<string>, results: seq<Result<T>>, n: nat)
    requires |names| == |results| && n <= |names| && Collect(names[..n], results[..n]).Err?
    ensures Collect(names, results) == Collect(names[..n], results[..n])
    decreases |names| - n
  {
    if n < |names| {
      assert names[..n + 1][..n] == names[..n] && results[..n + 1][..n] == results[..n];
      FailedEarly(names, results, n + 1);
    } else {
      assert names[..n] == names && results[..n] == results;
    }
  }

  /** Loading the registry's own saved form gives back every shard with attestation cleared. */
  lemma SavedFormLoads(entries: seq<A.ShardAuthority>, m: map<string, A.ShardAuthority>)
    requires SavedFormOf(entries, m) && forall k :: k in m ==> R.WellFormed(m[k])
    ensures LoadAll(entries) == Ok(RestoredShards(m))
  {
    var names, results := Names(entries), Restorations(entries);
    forall i | 0 <= i < |entries| ensures results[i] == Ok(Cleared(entries[i])) {
      R.ReloadClearsOnlyAttestation(m[entries[i].shard]);
    }
    LoadsAs(entries, names, results, m);
  }

  lemma LoadsAs(entries: seq<A.ShardAuthority>, names: seq<string>, results: seq<Result<A.ShardAuthority>>,
                m: map<string, A.ShardAuthority>)
    requires SavedFormOf(entries, m) && |names| == |results| == |entries|
    requires forall i :: 0 <= i < |entries| ==> names[i] == entries[i].shard && results[i] == Ok(Cleared(entries[i]))
    ensures Collect(names, results) == Ok(RestoredShards(m))
  {
    CollectDistinct(names, results, |names|);
    assert names[..|names|] == names && results[..|names|] == results;
    forall k | k in Collect(names, results).value ensures exists j :: 0 <= j < |entries| && entries[j].shard == k {
      var j :| 0 <= j < |names| && names[j] == k;
    }
    SameTable(entries, m, Collect(names, results).value);
  }

  lemma SameTable(entries: seq<A.ShardAuthority>, m: map<string, A.ShardAuthority>,
                  loaded: map<string, A.ShardAuthority>)
    requires SavedFormOf(entries, m)
    requires forall k :: k in loaded ==> exists j :: 0 <= j < |entries| && entries[j].shard == k
    requires forall j :: 0 <= j < |entries| ==>
              entries[j].shard in loaded && loaded[entries[j].shard] == Cleared(entries[j])
    ensures loaded == RestoredShards(m)
  {
    forall k | k in m ensures k in loaded && loaded[k] == Cleared(m[k]) {
      var j :| 0 <= j < |entries| && entries[j].shard == k;
    }
    assert loaded.Keys == m.Keys;
  }

  // ---------------------------------------------------------------- scans

  method ExpireInPlace(leases: seq<A.Lease>, now: nat) returns (out: seq<A.Lease>)
    ensures out == A.ExpireAll(leases, now)
  {
    out := leases;
    var i := 0;
    while i < |leases|
      invariant 0 <= i <= |leases| == |out|
      invariant forall j :: 0 <= j < i ==> out[j] == A.Expire(leases[j], now)
      invariant forall j :: i <= j < |leases| ==> out[j] == leases[j]
    {
      if A.Live(out[i].state) && now >= out[i].expiresAt {
        out := out[i := out[i].(state := A.Expired)];
      }
      i := i + 1;
    }
  }

  method FindIncumbent(leases: seq<A.Lease>, req: A.GrantRequest, now: nat, slotNow: nat) returns (i: nat)
    ensures i == A.Incumbent(leases, req, now, slotNow)
  {
    i := 0;
    if req.mode.Mutating? {
      while i < |leases| && !A.Blocks(leases[i], slotNow)
        invariant i <= |leases|
        invariant forall j :: 0 <= j < i ==> !A.Blocks(leases[j], slotNow)
      {
        i := i + 1;
      }
      IndexWhereUnique(leases, (l: A.Lease) => A.Blocks(l, slotNow), i);
    } else {
      while i < |leases| && !A.SameHolderAndMode(leases[i], req, now)
        invariant i <= |leases|
        invariant forall j :: 0 <= j < i ==> !A.SameHolderAndMode(leases[j], req, now)
      {
        i := i + 1;
      }
      IndexWhereUnique(leases, (l: A.Lease) => A.SameHolderAndMode(l, req, now), i);
    }
  }

  method FindId(leases: seq<A.Lease>, id: nat) returns (i: nat)
    ensures i == A.FirstWithId(leases, id)
  {
    i := 0;
    while i < |leases| && leases[i].id != id
      invariant i <= |leases|
      invariant forall j :: 0 <= j < i ==> leases[j].id != id
    {
      i := i + 1;
    }
    IndexWhereUnique(leases, (l: A.Lease) => l.id == id, i);
  }

  method FindHolderAndToken(leases: seq<A.Lease>, holder: A.Incarnation, token: nat) returns (i: nat)
    ensures i == IndexWhere(leases, (l: A.Lease) => l.holder == holder && l.token == token)
  {
    i := 0;
    while i < |leases| && !(leases[i].holder == holder && leases[i].token == token)
      invariant i <= |leases|
      invariant forall j :: 0 <= j < i ==> !(leases[j].holder == holder && leases[j].token == token)
    {
      i := i + 1;
    }
    IndexWhereUnique(leases, (l: A.Lease) => l.holder == holder && l.token == token, i);
  }

  method CountReadOnly(leases: seq<A.Lease>, now: nat) returns (count: nat)
    ensures count == A.CountActiveReadOnly(leases, now)
  {
    count := 0;
    var i := 0;
    while i < |leases|
      invariant 0 <= i <= |leases|
      invariant count == A.CountActiveReadOnly(leases[..i], now)
    {
      assert leases[..i + 1][..i] == leases[..i];
      if leases[i].mode.ReadOnlyShared? && A.EffectiveState(leases[i], now).Active? {
        count := count + 1;
      }
      i := i + 1;
    }
    assert leases[..i] == leases;
  }

  // ---------------------------------------------------------------- operations on one entry

  method GrantEntry(entry: A.ShardAuthority, req: A.GrantRequest, now: nat, slotNow: nat, token: nat)
    returns (s: A.ShardAuthority, r: Result<A.Lease>)
    ensures (s, r) == A.Grant(entry, req, now, slotNow, token)
  {
    s := entry;
    if !req.holder.Valid() || req.ttl == 0 { return s, Err(InvalidArgument); }
    if req.ttl > A.MAX_LEASE_TTL_MS { return s, Err(BoundsExceeded); }
    var expired := ExpireInPlace(s.leases, now);
    s := s.(leases := expired);
    var i := FindIncumbent(s.leases, req, now, slotNow);
    if i < |s.leases| {
      if req.mode.Mutating? {
        if s.leases[i].holder != req.holder || !A.EffectiveState(s.leases[i], now).Active? {
          return s, Err(AuthorityConflict);
        }
        i := FindId(s.leases, s.leases[i].id);
      }
      var renewed := s.leases[i].(expiresAt := AddU64(now, req.ttl), attested := true);
      return s.(leases := s.leases[i := renewed]), Ok(renewed);
    }
    if req.mode.ReadOnlyShared? {
      var count := CountReadOnly(s.leases, now);
      if count >= A.MAX_READ_ONLY_LEASES { return s, Err(ResourceExhausted); }
    } else {
      if s.generation >= MAX_U64 { return s, Err(BoundsExceeded); }
      s := s.(generation := s.generation + 1);
    }
    if s.nextLeaseId >= MAX_U64 { return s, Err(BoundsExceeded); }
    var lease := A.NewLease(s, req, now, token);
    var leases := s.leases + [lease];
    if |leases| > A.MAX_LEASE_HISTORY { leases := leases[1..]; }
    return s.(leases := leases, nextLeaseId := s.nextLeaseId + 1), Ok(lease);
  }

  method RenewEntry(entry: A.ShardAuthority, id: nat, ttl: nat, now: nat)
    returns (s: A.ShardAuthority, status: Status)
    ensures (s, status) == A.Renew(entry, id, ttl, now)
  {
    s := entry;
    if ttl == 0 || ttl > A.MAX_LEASE_TTL_MS { return s, Err(BoundsExceeded); }
    var expired := ExpireInPlace(s.leases, now);
    s := s.(leases := expired);
    var i := FindId(s.leases, id);
    if i == |s.leases| { return s, Err(NotFound); }
    if !s.leases[i].state.Active? { return s, Err(StaleAuthority); }
    return s.(leases := s.leases[i := s.leases[i].(expiresAt := AddU64(now, ttl))]), SUCCESS;
  }

  method FindOutstanding(fences: seq<A.Fence>, target: A.Incarnation) returns (k: nat)
    ensures k == IndexWhere(fences, (f: A.Fence) => A.Outstanding(f, target))
  {
    k := 0;
    while k < |fences| && !(!fences[k].acknowledged && fences[k].target == target)
      invariant 0 <= k <= |fences|
      invariant forall j :: 0 <= j < k ==> !A.Outstanding(fences[j], target)
    {
      k := k + 1;
    }
    IndexWhereUnique(fences, (f: A.Fence) => A.Outstanding(f, target), k);
  }

  method FindMutationOf(leases: seq<A.Lease>, target: A.Incarnation, now: nat) returns (i: nat)
    ensures i == IndexWhere(leases, (l: A.Lease) => A.HoldsMutation(l, target, now))
  {
    i := 0;
    while i < |leases| && !A.HoldsMutation(leases[i], target, now)
      invariant 0 <= i <= |leases|
      invariant forall j :: 0 <= j < i ==> !A.HoldsMutation(leases[j], target, now)
    {
      i := i + 1;
    }
    IndexWhereUnique(leases, (l: A.Lease) => A.HoldsMutation(l, target, now), i);
  }

  method FenceEntry(entry: A.ShardAuthority, target: A.Incarnation, now: nat)
    returns (s: A.ShardAuthority, status: Status)
    ensures (s, status) == A.RequestFence(entry, target, now)
  {
    s := entry;
    if !target.Valid() { return s, Err(InvalidArgument); }
    var expired := ExpireInPlace(s.leases, now);
    s := s.(leases := expired);
    var k := FindOutstanding(s.fences, target);
    if k < |s.fences| { return s, Err(DuplicateFrame); }
    var i := FindMutationOf(s.leases, target, now);
    if i == |s.leases| { return s, Err(NotFound); }
    if s.generation >= MAX_U64 || s.nextFenceId >= MAX_U64 { return s, Err(BoundsExceeded); }
    s := s.(generation := s.generation + 1);
    var fence := A.Fence(s.nextFenceId, target, s.epoch, s.generation, s.leases[i].id, now, 0, false);
    var fences := s.fences + [fence];
    if |fences| > A.MAX_FENCE_HISTORY { fences := fences[1..]; }
    return s.(leases := s.leases[i := s.leases[i].(state := A.Fencing)], fences := fences,
              nextFenceId := s.nextFenceId + 1), SUCCESS;
  }

  method AcknowledgeEntry(s: A.ShardAuthority, holder: A.Incarnation, fence: nat, now: nat)
    returns (t: A.ShardAuthority, status: Status)
    ensures (t, status) == A.AcknowledgeFence(s, holder, fence, now)
  {
    var k := 0;
    while k < |s.fences| && s.fences[k].id != fence
      invariant 0 <= k <= |s.fences|
      invariant forall j :: 0 <= j < k ==> s.fences[j].id != fence
    {
      k := k + 1;
    }
    IndexWhereUnique(s.fences, (f: A.Fence) => f.id == fence, k);
    if k == |s.fences| { return s, Err(NotFound); }
    if s.fences[k].target != holder { return s, Err(StaleIncarnation); }
    if s.fences[k].acknowledged { return s, SUCCESS; }
    var leases := s.leases;
    var i := 0;
    while i < |s.leases|
      invariant 0 <= i <= |s.leases| == |leases|
      invariant forall j :: 0 <= j < i ==> leases[j] == A.CloseFenced(s.leases[j], s.fences[k].fencedLease)
      invariant forall j :: i <= j < |leases| ==> leases[j] == s.leases[j]
    {
      if leases[i].id == s.fences[k].fencedLease && leases[i].state.Fencing? {
        leases := leases[i := leases[i].(state := A.Fenced)];
      }
      i := i + 1;
    }
    assert leases == A.CloseAll(s.leases, s.fences[k].fencedLease);
    var acknowledged := s.fences[k].(acknowledged := true, acknowledgedAt := now);
    return s.(fences := s.fences[k := acknowledged], leases := leases), SUCCESS;
  }

  method ReattestEntry(entry: A.ShardAuthority, holder: A.Incarnation, token: nat, now: nat)
    returns (s: A.ShardAuthority, status: Status)
    ensures (s, status) == A.Reattest(entry, holder, token, now)
  {
    var expired := ExpireInPlace(entry.leases, now);
    s := entry.(leases := expired);
    var i := FindHolderAndToken(s.leases, holder, token);
    if i == |s.leases| || !s.leases[i].state.Active? || now >= s.leases[i].expiresAt {
      return s, Err(StaleAuthority);
    }
    return s.(leases := s.leases[i := s.leases[i].(attested := true)]), SUCCESS;
  }

  method AdvanceEntry(s: A.ShardAuthority, epoch: nat) returns (t: A.ShardAuthority, status: Status)
    ensures (t, status) == A.AdvanceEpoch(s, epoch)
  {
    if epoch == 0 || epoch <= s.epoch { return s, Err(StaleEpoch); }
    var leases := s.leases;
    var i := 0;
    while i < |s.leases|
      invariant 0 <= i <= |s.leases| == |leases|
      invariant forall j :: 0 <= j < i ==> leases[j] == A.RevokeLive(s.leases[j])
      invariant forall j :: i <= j < |leases| ==> leases[j] == s.leases[j]
    {
      if A.Live(leases[i].state) { leases := leases[i := leases[i].(state := A.Revoked)]; }
      i := i + 1;
    }
    assert leases == A.RevokeAllLive(s.leases);
    return s.(epoch := epoch, generation := 1, leases := leases), SUCCESS;
  }

  method ExpireTable(table: map<string, A.ShardAuthority>, now: nat) returns (out: map<string, A.ShardAuthority>)
    ensures out.Keys == table.Keys && forall k :: k in out ==> out[k] == A.ExpireDue(table[k], now)
  {
    out := table;
    var pending := table.Keys;
    while pending != {}
      invariant pending <= table.Keys == out.Keys
      invariant forall k :: k in out ==> out[k] == if k in pending then table[k] else A.ExpireDue(table[k], now)
      decreases pending
    {
      var k :| k in pending;
      var expired := ExpireInPlace(out[k].leases, now);
      out := out[k := out[k].(leases := expired)];
      pending := pending - {k};
    }
  }

  method LoadEntries(entries: seq<A.ShardAuthority>) returns (r: Result<map<string, A.ShardAuthority>>)
    ensures r == LoadAll(entries)
  {
    var restored: map<string, A.ShardAuthority> := map[];
    ghost var names, results := Names(entries), Restorations(entries);
    var i := 0;
    while i < |entries|
      invariant 0 <= i <= |entries|
      invariant Collect(names[..i], results[..i]) == Ok(restored)
    {
      CollectStep(names, results, i);
      var one := A.Restore(entries[i]);
      if one.Err? || entries[i].shard in restored {
        FailedEarly(names, results, i + 1);
        return Err(if one.Err? then one.code else IntegrityFailure);
      }
      restored := restored[entries[i].shard := one.value];
      i := i + 1;
    }
    assert names[..i] == names && results[..i] == results;
    return Ok(restored);
  }

  // ---------------------------------------------------------------- tables of well-formed records

  /** A record filed under its own name that satisfies the invariant of all runs. */
  predicate Filed(name: string, s: A.ShardAuthority) { s.shard == name && R.WellFormed(s) }

  predicate TableOk(m: map<string, A.ShardAuthority>) { forall k :: k in m ==> Filed(k, m[k]) }

  lemma FiledAfter(name: string, s: A.ShardAuthority, op: R.Op)
    requires Filed(name, s) && (op.GrantOp? ==> op.token != 0)
    ensures Filed(name, R.Apply(s, op))
  {
    R.StepKeepsWellFormed(s, op);
    R.EpochGenerationGrows(s, op);
  }

  lemma FiledKeepsTable(m: map<string, A.ShardAuthority>, shard: string, s: A.ShardAuthority)
    requires TableOk(m) && Filed(shard, s)
    ensures TableOk(m[shard := s])
  {
  }

  /** An operation on one shard keeps the table. */
  lemma OperationKeepsTable(m: map<string, A.ShardAuthority>, shard: string, op: R.Op, s: A.ShardAuthority)
    requires TableOk(m) && shard in m && (op.GrantOp? ==> op.token != 0) && s == R.Apply(m[shard], op)
    ensures TableOk(m[shard := s])
  {
    FiledAfter(shard, m[shard], op);
    FiledKeepsTable(m, shard, s);
  }

  lemma FiledWhenEstablished(shard: string, epoch: nat)
    requires A.Establish(shard, epoch).Ok?
    ensures Filed(shard, A.Establish(shard, epoch).value)
  {
  }

  lemma ExpiryKeepsTable(m: map<string, A.ShardAuthority>, n: map<string, A.ShardAuthority>, now: nat)
    requires TableOk(m) && n.Keys == m.Keys && forall k :: k in n ==> n[k] == A.ExpireDue(m[k], now)
    ensures TableOk(n)
  {
    forall k | k in n ensures Filed(k, n[k]) { FiledAfter(k, m[k], R.ExpireOp(now)); }
  }

  /** A table has one well-formed entry for each name, so its saved form restores to such a table. */
  lemma RestoredKeepsTable(m: map<string, A.ShardAuthority>)
    requires TableOk(m)
    ensures TableOk(RestoredShards(m))
  {
    forall k | k in m ensures Filed(k, Cleared(m[k])) {
      FiledAfter(k, m[k], R.ReloadOp);
      R.ReloadClearsOnlyAttestation(m[k]);
    }
  }

  // ---------------------------------------------------------------- the registry

  class Registry {
    var shards: map<string, A.ShardAuthority>

    /** Every record is filed under its own name and satisfies the invariant of all runs. */
    ghost predicate Valid()
      reads this
    {
      TableOk(shards)
    }

    constructor ()
      ensures shards == map[] && Valid()
    {
      shards := map[];
    }

    method Establish(shard: string, epoch: nat) returns (status: Status)
      requires Valid()
      modifies this
      ensures Valid()
      ensures status.Ok? <==> (A.Establish(shard, epoch).Ok? && shard !in old(shards))
      ensures status.Ok? ==> shards == old(shards)[shard := A.Establish(shard, epoch).value]
      ensures status.Err? ==> shards == old(shards)
    {
      if shard == "" || epoch == 0 { return Err(InvalidArgument); }
      if shard in shards { return Err(AlreadyExists); }
      FiledWhenEstablished(shard, epoch);
      shards := shards[shard := A.ShardAuthority(shard, epoch, 1, [], [], 1, 1)];
      status := SUCCESS;
    }

    /** The runtime reads the clock a second time inside a grant; with one reading the registry stays valid. */
    method Grant(shard: string, req: A.GrantRequest, now: nat, slotNow: nat, token: nat) returns (r: Result<A.Lease>)
      requires Valid() && token != 0
      modifies this
      ensures slotNow == now ==> Valid()
      ensures shard !in old(shards) ==> r == Err(NotFound) && shards == old(shards)
      ensures shard in old(shards) ==>
                var o := A.Grant(old(shards)[shard], req, now, slotNow, token);
                r == o.1 && shards == old(shards)[shard := o.0]
    {
      if shard !in shards { return Err(NotFound); }
      var s: A.ShardAuthority;
      s, r := GrantEntry(shards[shard], req, now, slotNow, token);
      if slotNow == now { OperationKeepsTable(shards, shard, R.GrantOp(req, now, token), s); }
      shards := shards[shard := s];
    }

    method Renew(shard: string, id: nat, ttl: nat, now: nat) returns (status: Status)
      requires Valid()
      modifies this
      ensures Valid()
      ensures shard !in old(shards) ==> status == Err(NotFound) && shards == old(shards)
      ensures shard in old(shards) ==>
                var o := A.Renew(old(shards)[shard], id, ttl, now);
                status == o.1 && shards == old(shards)[shard := o.0]
    {
      if shard !in shards { return Err(NotFound); }
      var s: A.ShardAuthority;
      s, status := RenewEntry(shards[shard], id, ttl, now);
      OperationKeepsTable(shards, shard, R.RenewOp(id, ttl, now), s);
      shards := shards[shard := s];
    }

    method RequestFence(shard: string, target: A.Incarnation, now: nat) returns (status: Status)
      requires Valid()
      modifies this
      ensures Valid()
      ensures shard !in old(shards) ==> status == Err(NotFound) && shards == old(shards)
      ensures shard in old(shards) ==>
                var o := A.RequestFence(old(shards)[shard], target, now);
                status == o.1 && shards == old(shards)[shard := o.0]
    {
      if shard !in shards { return Err(NotFound); }
      var s: A.ShardAuthority;
      s, status := FenceEntry(shards[shard], target, now);
      OperationKeepsTable(shards, shard, R.FenceOp(target, now), s);
      shards := shards[shard := s];
    }

    method AcknowledgeFence(shard: string, holder: A.Incarnation, fence: nat, now: nat) returns (status: Status)
      requires Valid()
      modifies this
      ensures Valid()
      ensures shard !in old(shards) ==> status == Err(NotFound) && shards == old(shards)
      ensures shard in old(shards) ==>
                var o := A.AcknowledgeFence(old(shards)[shard], holder, fence, now);
                status == o.1 && shards == old(shards)[shard := o.0]
    {
      if shard !in shards { return Err(NotFound); }
      var s: A.ShardAuthority;
      s, status := AcknowledgeEntry(shards[shard], holder, fence, now);
      OperationKeepsTable(shards, shard, R.AcknowledgeOp(holder, fence, now), s);
      shards := shards[shard := s];
    }

    method Revoke(shard: string, id: nat) returns (status: Status)
      requires Valid()
      modifies this
      ensures Valid()
      ensures shard !in old(shards) ==> status == Err(NotFound) && shards == old(shards)
      ensures shard in old(shards) ==>
                var o := A.Revoke(old(shards)[shard], id);
                status == o.1 && shards == old(shards)[shard := o.0]
    {
      if shard !in shards { return Err(NotFound); }
      var s := shards[shard];
      var i := FindId(s.leases, id);
      if i == |s.leases| { return Err(NotFound); }
      s := s.(leases := s.leases[i := s.leases[i].(state := A.Revoked)]);
      OperationKeepsTable(shards, shard, R.RevokeOp(id), s);
      shards := shards[shard := s];
      status := SUCCESS;
    }

    method ExpireDue(now: nat)
      requires Valid()
      modifies this
      ensures Valid()
      ensures shards.Keys == old(shards).Keys
      ensures forall k :: k in shards ==> shards[k] == A.ExpireDue(old(shards)[k], now)
    {
      var table := ExpireTable(shards, now);
      ExpiryKeepsTable(shards, table, now);
      shards := table;
    }

    method Reattest(shard: string, holder: A.Incarnation, token: nat, now: nat) returns (status: Status)
      requires Valid()
      modifies this
      ensures Valid()
      ensures shard !in old(shards) ==> status == Err(NotFound) && shards == old(shards)
      ensures shard in old(shards) ==>
                var o := A.Reattest(old(shards)[shard], holder, token, now);
                status == o.1 && shards == old(shards)[shard := o.0]
    {
      if shard !in shards { return Err(NotFound); }
      var s: A.ShardAuthority;
      s, status := ReattestEntry(shards[shard], holder, token, now);
      OperationKeepsTable(shards, shard, R.ReattestOp(holder, token, now), s);
      shards := shards[shard := s];
    }

    method AdvanceEpoch(shard: string, epoch: nat) returns (status: Status)
      requires Valid()
      modifies this
      ensures Valid()
      ensures shard !in old(shards) ==> status == Err(NotFound) && shards == old(shards)
      ensures shard in old(shards) ==>
                var o := A.AdvanceEpoch(old(shards)[shard], epoch);
                status == o.1 && shards == old(shards)[shard := o.0]
    {
      if shard !in shards { return Err(NotFound); }
      var s: A.ShardAuthority;
      s, status := AdvanceEntry(shards[shard], epoch);
      OperationKeepsTable(shards, shard, R.EpochOp(epoch), s);
      shards := shards[shard := s];
    }

    method ValidateClaim(c: A.Claim, required: A.Mode, now: nat) returns (status: Status)
      ensures c.shard !in shards ==> status == Err(NotFound)
      ensures c.shard in shards ==> status == A.ValidateClaim(shards[c.shard], c, required, now)
    {
      if c.shard !in shards { return Err(NotFound); }
      var s := shards[c.shard];
      if !c.Valid() { return Err(InvalidArgument); }
      if c.epoch != s.epoch { return Err(StaleEpoch); }
      if c.generation != s.generation { return Err(StaleGeneration); }
      var i := FindHolderAndToken(s.leases, c.incarnation, c.token);
      if i == |s.leases| || !A.EffectiveState(s.leases[i], now).Active? || !s.leases[i].attested {
        return Err(StaleAuthority);
      }
      status := A.ModePermits(required, s.leases[i].mode);
    }

    method ViewShard(shard: string, now: nat) returns (r: Result<A.View>)
      ensures shard !in shards ==> r == Err(NotFound)
      ensures shard in shards ==> r == Ok(A.ViewOf(shards[shard], now))
    {
      if shard !in shards { return Err(NotFound); }
      var s := shards[shard];
      var view := A.View(s.epoch, s.generation, None, None, [], s.fences);
      var i := 0;
      while i < |s.leases|
        invariant 0 <= i <= |s.leases|
        invariant view == A.Scan(s, now, i)
      {
        var copy := s.leases[i].(state := A.EffectiveState(s.leases[i], now));
        if copy.mode.Mutating? && copy.state.Active? {
          view := view.(mutating := Some(copy), slotHolder := Some(copy));
        } else if copy.mode.Mutating? && copy.state.Fencing? {
          view := view.(slotHolder := Some(copy));
        } else if copy.mode.ReadOnlyShared? && copy.state.Active? {
          view := view.(readOnly := view.readOnly + [copy]);
        }
        i := i + 1;
      }
      r := Ok(view);
    }

    /** In a valid registry no shard ever has two live mutating leases. */
    lemma OneLiveMutatingLease(shard: string, i: nat, j: nat)
      requires Valid() && shard in shards && i < |shards[shard].leases| && j < |shards[shard].leases|
      requires R.Busy(shards[shard].leases[i]) && R.Busy(shards[shard].leases[j])
      ensures i == j
    {
      assert Filed(shard, shards[shard]);
    }

    /** Two claims it accepts for mutation of one shard at one moment name the same holder and token, and the view
        of the shard reports the lease they name. */
    lemma AcceptedClaimsAgree(c: A.Claim, d: A.Claim, now: nat)
      requires Valid() && c.shard == d.shard && c.shard in shards
      requires A.ValidateClaim(shards[c.shard], c, A.Mutating, now).Ok?
      requires A.ValidateClaim(shards[c.shard], d, A.Mutating, now).Ok?
      ensures c == d
      ensures var v := A.ViewOf(shards[c.shard], now);
              v.mutating.Some? && v.mutating.value.holder == c.incarnation && v.mutating.value.token == c.token
    {
      var s := shards[c.shard];
      assert Filed(c.shard, s);
      var i := R.AcceptedClaimNamesSlot(s, c, now);
      var j := R.AcceptedClaimNamesSlot(s, d, now);
      OneLiveMutatingLease(c.shard, i, j);
      R.ViewReportsSlot(s, now);
    }

    /** Replaces the table by the restored entries, or leaves it untouched when an entry is refused. Loading the saved
        form of a valid table always succeeds and gives that table back with attestations cleared. */
    method Load(entries: seq<A.ShardAuthority>, ghost saved: map<string, A.ShardAuthority>) returns (status: Status)
      modifies this
      ensures LoadAll(entries).Err? ==> status == Err(LoadAll(entries).code) && shards == old(shards)
      ensures LoadAll(entries).Ok? ==> status.Ok? && shards == LoadAll(entries).value
      ensures TableOk(saved) && SavedFormOf(entries, saved) ==>
                Valid() && status.Ok? && shards == RestoredShards(saved)
    {
      var restored := LoadEntries(entries);
      if TableOk(saved) && SavedFormOf(entries, saved) {
        forall k | k in saved ensures R.WellFormed(saved[k]) { assert Filed(k, saved[k]); }
        SavedFormLoads(entries, saved);
        RestoredKeepsTable(saved);
      }
      if restored.Err? { return Err(restored.code); }
      shards := restored.value;
      status := SUCCESS;
    }
  }
}
