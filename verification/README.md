# A verified model of the evolution runtime

The runtime moves a shard from one version of a control-plane component to the next while the shard keeps serving.
A controller keeps a registry of leases (who may mutate a shard, in which epoch and generation), drives the old and
the new node through the phases of a handoff, and transfers the shard's document by snapshot, incremental records and
declared migrations. Everything durable and everything on the wire goes through a canonical JSON form, checksummed
frames and append-only logs.

This project models that core in Dafny and proves what it is for:

* **One writer.** In every run of registry, controller and two nodes, a node that accepts mutating writes holds the
  lease in the registry's mutation slot, so never do two nodes accept at once (`SingleWriter`). Underneath, every run
  of registry operations keeps at most one live mutating lease, refuses superseded claims for ever, never revives a
  lease, and hands the slot over only after a release (`AuthorityRuns`); while every grant carries authority, the live
  lease's own claim is the only one accepted (`AuthorityClaims`). Where the guarantee ends is stated exactly, with runs
  of the runtime's own steps that go past it (`AuthorityLimits`, `SingleWriterLimits`). Each operation's effect is
  stated exactly (`AuthorityEffects`, `NodeRuns`), and so is what the controller's steps achieve: a transfer ends with
  the successor accepting, a replaced holder frees its slot, a re-attestation heals a controller restart
  (`SingleWriterEffects`).
* **No lost or invented writes.** Under every interleaving of writes, compactions, snapshots, installs, reads, batches
  that fail part-way, crashes and restarts, each replica's document is the fold of exactly the writes up to its `lsn`,
  whatever document and position the predecessor started from (`Replication`); a crash between any two durable
  operations keeps or loses the operation as a whole (`ControlPlaneNode`), on every disk whose files keep the limits
  they are read with, and on no other (`NodeFiles`); the final catch-up closes a gap exactly when its rounds allow, and
  the successor is granted authority over exactly the writes it has (`CatchUp`).
* **Migrations.** Going back restores the document exactly when every step could be undone where it was applied, and
  the path search finds a path exactly when one exists (`Migration`, `ManifestPath`).
* **Codecs.** The strict JSON parser accepts exactly the texts of the grammar of RFC 8259 whose value is within its
  limits, and returns that value (`JsonGrammar`, `JsonComplete`); round trips, fragmentation and damage for JSON, frames
  and the record log; streaming SHA-256; CRC-32.
* **Handoff and negotiation.** A sharp bound on phase transitions over the life of a handoff, and negotiation that
  does not depend on the order of the participants.

Objects whose methods update fields are classes (`Registry`, `Node`, `Hasher`, `FrameDecoder`, `Parser`,
`Controller`), with each method proved against a function on values; the theorems are about those functions and about
all runs of them. Loops of the runtime are loops here.

`dafny verify dfyconfig.toml` checks the whole project.

## Reading order

`Common`, then `Authority` → `AuthorityRuns` → `AuthorityLimits`, `AuthorityClaims` → `AuthorityEffects`,
`AuthorityRegistry`; `NodeAuthority` → `NodeRuns`, `SingleWriter` → `SingleWriterLimits`, `SingleWriterEffects`;
`JsonStrings` → `JsonUnicode`; `JsonNumbers` → `JsonValues` → `JsonRoundTrip` → `JsonLimits` → `JsonExact`; `JsonGrammar` →
`JsonTokens` → `JsonSound` → `JsonComplete`; `JsonPrinter`, `JsonParser`; `ByteOrder` → `Framing`, `RecordLog`;
`Documents` → `Replication` → `NodeFiles` → `ControlPlaneNode` → `CatchUp` → `ReplicationProgress`; `Migration` →
`ManifestPath`; `Sha256`; `Crc32`; `Handoff`; `Negotiation`.

## Where a promise has a condition

These are results about the code as it is; each has a lemma that gives the exact condition.

* `grant` reads the clock a second time while it looks for the slot's occupant (`src/authority.cpp:226`). A lease that
  runs out between the two readings can leave two leases stored as live: `AuthorityLimits.SecondClockReadingExact`.
* Read-only grants share the bounded history of 256 leases with mutating ones and can push out the oldest entry even
  when it is the live mutating lease: `AuthorityLimits.GrantForgetsSlotExact`, and
  `AuthorityLimits.ForgottenSlotIsReachable` for a run from `establish` that does it. With mutating grants only, as the
  controller issues, this cannot happen: `AuthorityRuns.MutatingStepKeepsSlotLast`.
* A grant of mode None moves the generation and leaves the incumbent's lease in place (`src/authority.cpp:359-368`), so
  the incumbent's own claim is refused as stale from then on: `AuthorityClaims.EmptyGrantExact` says exactly when.
* When the call that delivers a grant fails the controller revokes the lease (`src/controller.cpp:782-787` and
  `1554-1558`). If that grant renewed a lease the node still acts on, the slot becomes free while the node keeps
  accepting: `SingleWriterLimits.WithdrawnRenewalExact`. `SingleWriterLimits.TwoWritersAfterFailedTransfer` reaches two
  accepting nodes from every initial state: the transfer delivers its lease but fails to log the event
  (`src/controller.cpp:1571-1574`), its retry renews the lease and fails to deliver it, and the abort restores the
  predecessor (`src/controller.cpp:1918-1951`). If the node did take the lease and only the reply was lost, the slot is
  free in the same way: `SingleWriterLimits.LostReplyExact`. The step system therefore withdraws only leases the node
  does not act on.
* `node.grant_authority` does not compare the incarnation the lease names with its own (`src/node.cpp:1239-1306`), and
  `node.reattest` compares only the token and the expiry (`src/node.cpp:1319-1330`), while the controller decides on
  the last report (`src/controller.cpp:714`): `SingleWriterLimits.DeliveryExact` and `SingleWriterLimits.ReattestExact`
  say exactly when each leaves the node vouched for, and `SingleWriterLimits.StaleReattestIsReached` reaches a node that
  accepts without holding the slot, by a restart between the report and the re-attestation. The step system assumes
  that both calls reach the incarnation they were decided for.
* The state file is read with the JSON parser's default limits, 4 MiB and 65536 entries (`src/node.cpp:326`), and the
  record log with a file limit of 64 MiB (`src/persistence.cpp:98`), while documents of 100000 fields of 64 KiB are
  accepted, and saved up to 64 MiB: `NodeFiles.StateLoadsExactly`, `NodeFiles.LogLoadsExactly` and
  `ControlPlaneNode.ReopensExactly` say exactly which disks open again, and
  `ControlPlaneNode.AcceptedWritesDoNotReopen` gives a document of 64 accepted writes that does not.
* A retired node is documented to refuse every mutation permanently (`docs/ARCHITECTURE.md:134`). A fence for its own
  incarnation is not refused and takes it out of retirement (`src/node.cpp:1188-1237`), and a grant then makes it a
  writer again: `NodeRuns.LeavesRetirementExactly` and `NodeRuns.WriterAfterRetirement` say that nothing else does,
  `NodeRuns.RetiredForGood` that without a fence retirement holds, and `NodeRuns.FencedRetiredNodeWrites` gives the run.
* A handoff records at most 36 forward transitions on the record it goes on with; a controller that restarts from an
  older saved record forgets some, and what was noted altogether then has no bound: `Handoff.KeptTransitionsBounded`
  and `Handoff.ForgottenWithoutBound`.
* `add_field` overwrites an existing key, and an optional step that was skipped is not a no-op on the way back:
  `Migration.BackwardRestoresExactly`, with `Migration.OverwritingAddIsNotUndone` as an instance.
* A handoff migrates over the manifest's whole declared list in declared order (`src/controller.cpp:1308`), while
  validation looks for a path among the steps: `ManifestPath.DeclaredListIsPathExactly`, and
  `ManifestPath.OutOfOrderIsRefused` for two steps declared the other way round.
* The reserved bytes of a frame header and of a record header are written as zero and not required to be zero when read:
  `Framing.AcceptedIsEncoding` and `RecordLog.WholeIsEncoding` state acceptance exactly.
* The final catch-up loop also ends, successfully, when the predecessor's log is empty or the rounds run out; the
  successor is then granted authority short of the predecessor's position: `CatchUp.FinalCatchUp` states the position
  it ends at in each case, and `CatchUp.TransferAuthority` the document the granted successor holds.

## Model

| member | source | states |
|---|---|---|
| AuthorityRuns.StepKeepsWellFormed | src/authority.cpp:286-610 | every registry operation, save and restore included, keeps a well-formed record: one live mutating lease at most, ids and generations ordered and bounded by the counters, bounded histories, fences tied to leases |
| AuthorityRuns.RunKeepsWellFormed | src/authority.cpp:286-610 | the same over every run from any well-formed record |
| AuthorityRuns.AtMostOneMutationSlot | src/authority.cpp:306-331 | in every run from `establish`, no two stored mutating leases are both Active or Fencing |
| AuthorityRuns.ReloadClearsOnlyAttestation | src/authority.cpp:858-961 | restoring a record's own saved form succeeds and changes nothing but the attestation flags |
| AuthorityRuns.AcceptedClaimNamesSlot | src/authority.cpp:592-643 | a claim accepted for mutation names holder and token of the one lease that blocks the slot, and the record's epoch and generation |
| AuthorityRuns.ViewReportsSlot | src/authority.cpp:645-672 | the view's slot holder is the lease that blocks the slot, and none is reported when none blocks |
| AuthorityRuns.AcceptedClaimsAgree | src/authority.cpp:592-672 | any two claims accepted for mutation in one reachable state name the same holder, token, epoch and generation, and the view reports that lease |
| AuthorityRuns.EpochGenerationGrows | src/authority.cpp:286-590 | no operation decreases the pair (epoch, generation) lexicographically |
| AuthorityRuns.RunGrows | src/authority.cpp:286-590 | nor does any run |
| AuthorityRuns.SupersedingGrows | src/authority.cpp:359-368 | a new mutating lease, a fence request and an epoch advance make the pair strictly greater |
| AuthorityRuns.SupersededClaimRefusedForever | src/authority.cpp:592-643 | after such an operation a claim minted from any lease on record is refused as stale in every later state, for every mode |
| AuthorityRuns.RunDescends | src/authority.cpp:286-610 | every old lease still on record after a run was on record before it and only moved on: same holder, token, epoch and generation |
| AuthorityRuns.NeverActiveAgain | src/authority.cpp:446-533 | a lease that is not Active is not Active in any later state |
| AuthorityRuns.MutatingStepKeepsSlotLast | src/authority.cpp:394-397 | with mutating grants only, the live mutating lease stays last, and no live mutating lease is dropped by the bounded history |
| AuthorityRuns.MutatingRunKeepsSlotLast | src/authority.cpp:394-397 | the same over every run |
| AuthorityRuns.SlotTracked | src/authority.cpp:446-533 | one operation later the slot's lease is still on record, live or released |
| AuthorityRuns.HandoverAfterRelease | src/authority.cpp:306-331 | another lease gets the slot only after the previous one was on record as Fenced, Expired or Revoked at some point of the run |
| AuthorityRuns.CreatesExactly | src/authority.cpp:306-399 | a grant creates a lease exactly when the request is in order, nothing on record is in its way or to be renewed, and no counter or limit is reached, all read off the record before the call |
| AuthorityLimits.SecondClockReadingExact | src/authority.cpp:225-233 | with any second clock reading a grant on a well-formed record leaves two live mutating leases exactly when nothing but the slot stops a mutating request and the slot's lease runs out between the readings and stays on record |
| AuthorityLimits.GrantForgetsSlotExact | src/authority.cpp:394-397 | a grant drops a live mutating lease from the record exactly when it is the oldest of a full history and, on the record before the call, a request of another mode creates a lease |
| AuthorityLimits.ForgottenSlotIsReachable | src/authority.cpp:345-397 | from `establish`, one mutating and 255 brief read-only grants reach a record on which the next one drops the writer's unexpired lease, and another holder is then granted the slot |
| AuthorityClaims.StepKeepsCurrent | src/authority.cpp:359-368 | every operation except a grant of mode None keeps the live, unfenced mutating lease at the record's epoch and generation |
| AuthorityClaims.RunKeepsCurrent | src/authority.cpp:359-368 | so does every run of them |
| AuthorityClaims.AcceptedClaimIsTheLeases | src/authority.cpp:592-643 | in such a state a claim accepted for mutation is the slot lease's own claim, epoch and generation included |
| AuthorityClaims.OwnClaimExactly | src/authority.cpp:592-643 | the slot lease's own claim is accepted if and only if the lease is unfenced, unexpired and attested, and its token was not granted to the same holder before |
| AuthorityClaims.EmptyGrantExact | src/authority.cpp:359-368 | a grant of mode None leaves the lease at the record's generation if and only if it does not move the generation (stated on the record before the call) or drops the lease from the record |
| AuthorityClaims.EmptyGrantStalesIncumbent | src/authority.cpp:359-368 | otherwise the incumbent's own claim, accepted before, is refused as a stale generation, while its token with the new generation is accepted |
| AuthorityEffects.ExpiryIsUnobservable | src/authority.cpp:250-257 | marking leases as expired changes no answer to a claim, then or later, and leaves no live lease whose time is up |
| AuthorityEffects.ViewIgnoresExpiry | src/authority.cpp:645-672 | nor does it change any view |
| AuthorityEffects.RequestsExactly | src/authority.cpp:286-305 | a grant request is in order exactly when its holder is complete and its time-to-live is positive and at most a day; any other changes nothing |
| AuthorityEffects.CreatedLease | src/authority.cpp:359-399 | the lease a grant creates, field by field, the counters it moves and the history it leaves |
| AuthorityEffects.BlockedGrantExactly | src/authority.cpp:306-344 | a mutating request that meets a lease in the slot renews it exactly when it is the requester's own and not being fenced, and is a conflict otherwise |
| AuthorityEffects.ReadersAreLimited | src/authority.cpp:345-357 | a ninth read-only lease is refused |
| AuthorityEffects.ReattestExactly | src/authority.cpp:543-570 | a re-attestation succeeds if and only if the first lease of that holder and token is active and in time, and then attests that lease alone |
| AuthorityEffects.RestoredAcceptsNothing | src/authority.cpp:887-961 | after a restore no claim is accepted, for any mode |
| AuthorityEffects.ReattestationRestoresClaim | src/authority.cpp:543-643 | the slot lease's own claim is refused after a restore and accepted after its re-attestation exactly when it would be had the lease stayed attested |
| AuthorityEffects.ClaimAcceptedExactly | src/authority.cpp:592-643 | the exact condition for accepting a claim, for every mode |
| AuthorityEffects.ClaimRefusedExactly | src/authority.cpp:592-643 | which refusal a claim meets, for every cause |
| AuthorityEffects.RenewExactly | src/authority.cpp:401-423 | a renewal by id moves the expiry of that lease alone, exactly when the lease is active and in time; the refusals otherwise |
| AuthorityEffects.RevokeExactly | src/authority.cpp:520-533 | a revocation revokes exactly the lease with that id |
| AuthorityEffects.AdvanceExactly | src/authority.cpp:572-590 | only a greater epoch is taken; it starts at generation one with every live lease revoked and the others unchanged |
| AuthorityEffects.FenceExactly | src/authority.cpp:425-485 | a fence request succeeds exactly for a complete target with an active mutating lease and no waiting fence; it moves the generation, marks that lease and adds one waiting fence |
| AuthorityEffects.AcknowledgeExactly | src/authority.cpp:487-518 | an acknowledgement by the target marks the fence and closes the lease it names, once; anything else changes nothing |
| AuthorityEffects.ViewListsExactly | src/authority.cpp:645-672 | a view carries epoch, generation and fences, and lists exactly the active read-only leases in the order of their ids |
| AuthorityEffects.RestoresExactly | src/authority.cpp:887-961 | a saved record is restored if and only if it, its leases and its fences are complete and of one shard; only attestation is lost |
| AuthorityEffects.HandoverThroughFence | src/authority.cpp:425-518 | while a holder is being fenced nobody is granted the slot; once it acknowledges, the next request is |
| AuthorityRegistry.ExpireInPlace | src/authority.cpp:250-257 | the loop marks exactly the live leases whose time is up |
| AuthorityRegistry.FindIncumbent | src/authority.cpp:225-233 | the scan finds the first lease a request runs into |
| AuthorityRegistry.CountReadOnly | src/authority.cpp:345-357 | the loop counts the read-only leases that are active now |
| AuthorityRegistry.OperationKeepsTable | src/authority.cpp:286-610 | an operation on one shard of a table of well-formed records, each filed under its own name, leaves such a table |
| AuthorityRegistry.Registry.Establish | src/authority.cpp:267-284 | a new shard starts at generation one with no lease; an existing one is refused unchanged |
| AuthorityRegistry.Registry.Grant | src/authority.cpp:286-399 | the shard's record and the answer are those of the grant function, other shards are untouched, and the registry stays valid: every record well formed and filed under its name |
| AuthorityRegistry.Registry.Renew | src/authority.cpp:401-423 | likewise for a renewal by lease id |
| AuthorityRegistry.Registry.RequestFence | src/authority.cpp:425-485 | likewise for a fence request |
| AuthorityRegistry.Registry.AcknowledgeFence | src/authority.cpp:487-518 | likewise for an acknowledgement |
| AuthorityRegistry.Registry.Revoke | src/authority.cpp:520-533 | likewise for a revocation |
| AuthorityRegistry.Registry.ExpireDue | src/authority.cpp:535-541 | every shard's record is expired, and no shard is added or lost |
| AuthorityRegistry.Registry.Reattest | src/authority.cpp:543-570 | likewise for re-attestation |
| AuthorityRegistry.Registry.AdvanceEpoch | src/authority.cpp:572-590 | likewise for an epoch advance |
| AuthorityRegistry.Registry.ValidateClaim | src/authority.cpp:592-643 | the scan answers as the claim function does |
| AuthorityRegistry.Registry.ViewShard | src/authority.cpp:645-672 | the view built by the scan is that of the view function |
| AuthorityRegistry.Registry.OneLiveMutatingLease | src/authority.cpp:306-331 | in a valid registry no shard has two live mutating leases |
| AuthorityRegistry.Registry.AcceptedClaimsAgree | src/authority.cpp:592-672 | in a valid registry two claims accepted for mutation of one shard name the same holder, token, epoch and generation |
| AuthorityRegistry.Registry.Load | src/authority.cpp:887-961 | loading replaces the whole table by the restored entries, or leaves it as it was on any fault |
| AuthorityRegistry.SavedFormLoads | src/authority.cpp:858-961 | the saved form of any table of well-formed records loads, and yields the same table with attestations cleared |
| AuthorityRegistry.LoadsExactly | src/authority.cpp:887-961 | a saved table loads if and only if every entry restores and no shard comes twice |
| NodeAuthority.AcceptsMeansSomeClaimPasses | src/node.cpp:515-569 | a node accepts mutation exactly when some claim passes its check, and only its own incarnation, token, epoch and generation do |
| NodeRuns.ClaimPassesExactly | src/node.cpp:515-569 | the exact condition for a claim to pass a node, for every mode |
| NodeRuns.BecomesWriterExactly | src/node.cpp:1188-1335 | a node starts to accept mutating writes exactly by a mutating grant it takes or a re-attestation of its mutating lease in service and in time |
| NodeRuns.StopsWritingExactly | src/node.cpp:1188-1426 | a writer stops exactly by a fence for its incarnation, retirement, a restart, or a grant that is not mutating or not in time |
| NodeRuns.LeaseOnRecord | src/node.cpp:1188-1426 | the lease and lifecycle each operation leaves on record |
| NodeRuns.LeavesRetirementExactly | src/node.cpp:1188-1237 | a retired node leaves retirement exactly by a fence for its own incarnation |
| NodeRuns.WriterAfterRetirement | src/node.cpp:1188-1262 | a retired node in service again was fenced and then granted authority, with no restart since the fence |
| NodeRuns.RetiredForGood | src/node.cpp:1405-1426 | without a fence a retired node accepts nothing, whatever else happens |
| NodeRuns.FencedRetiredNodeWrites | src/node.cpp:1188-1306 | a fence and a grant make every retired node a writer |
| SingleWriter.StepKeepsInv | src/controller.cpp:692-799 | every enabled step (time, restart, report, grant with delivery, re-attestation decided on the last report, fence, acknowledgement, revocation of a replaced holder, reload) keeps the single-writer invariant |
| SingleWriter.RevokeReplacedKeepsInv | src/controller.cpp:1022-1074 | acknowledging the fences of a provably replaced holder and revoking its lease keeps it |
| SingleWriter.DeliverFenceKeepsInv | src/controller.cpp:1372-1482 | fencing a node and acknowledging the fence keeps it, whether or not the reply arrives |
| SingleWriter.RunKeepsInv | src/controller.cpp:692-799 | so does every legal run |
| SingleWriter.AcceptingNodeHoldsTheSlot | src/controller.cpp:692-799 | in every reachable state a node that accepts mutating writes holds the lease the view reports in the slot, with the same token, epoch and generation and an expiry no later |
| SingleWriter.AtMostOneWriter | src/controller.cpp:1533-1560 | at no moment of any run do both nodes accept mutating writes |
| SingleWriterEffects.ReplacedHolderRevoked | src/controller.cpp:1022-1074 | for a provably replaced holder exactly its lease is revoked, exactly the fences waiting for it are acknowledged, and nothing else changes |
| SingleWriterEffects.ReplacedHolderFreesSlot | src/controller.cpp:1022-1074 | no lease is then live, the view reports no holder, no fence waits for the holder, and the reported incarnation can be granted the slot |
| SingleWriterEffects.RecoveryCompletes | src/controller.cpp:1022-1074 | so a restarted node, once reported, is accepting again after two legal steps |
| SingleWriterEffects.TransferCompletes | src/controller.cpp:1372-1560 | from every state with an accepting source not being fenced, ask, fence and grant are legal and leave the target accepting and the source not |
| SingleWriterEffects.ReattestationCompletes | src/controller.cpp:706-760 | after a controller restart the slot's lease is unattested; reporting and re-attesting the accepting node attests it again |
| SingleWriterEffects.OldReportsDecideNothing | src/controller.cpp:656-676 | after a controller restart or a fence request nothing is decided on an earlier report: the nodes are asked again first |
| SingleWriterEffects.ExpiredLeasesAreMarked | src/authority.cpp:535-541 | expiry leaves no live lease past its time, and the view as it was |
| SingleWriterEffects.ReportSettlesFence | src/controller.cpp:1381-1407 | a fence whose answer was lost is settled by the report of a fenced or retired node, and the slot is free |
| SingleWriterEffects.RetiredStops | src/node.cpp:1405-1426 | a retired node accepts nothing and restarts as retired |
| SingleWriterLimits.WithdrawnRenewalExact | src/controller.cpp:782-787 | withdrawing a renewal whose delivery failed keeps the invariant exactly when the node does not accept writes |
| SingleWriterLimits.WithdrawnRenewalAdmitsTwoWriters | src/controller.cpp:782-787 | otherwise the next grant to the other node leaves both accepting |
| SingleWriterLimits.LostReplyExact | src/controller.cpp:782-787 | when only the reply to a grant is lost, revoking the lease keeps the invariant exactly when the node is retired and had refused it |
| SingleWriterLimits.TwoWritersAfterFailedTransfer | src/controller.cpp:1533-1577 | from every initial state a legal transfer, its retry with a failed delivery and the abort's grant to the predecessor leave both nodes accepting |
| SingleWriterLimits.DeliveryExact | src/node.cpp:1239-1306 | delivering a lease, new or renewed, keeps the invariant exactly when the incarnation it names is the one running |
| SingleWriterLimits.ReattestExact | src/controller.cpp:706-748 | a re-attestation decided on the last report and confirmed by the node keeps the invariant exactly when the reported incarnation still runs, or what runs there is out of service or holds no mutating lease |
| SingleWriterLimits.StaleReattestIsReached | src/node.cpp:1308-1335 | from every initial state a grant, a controller restart, a report and a node restart, all legal, reach a state in which the re-attestation makes a node accept that does not hold the slot |
| Documents.Put | src/migration.cpp:238-256 | a field is stored exactly when key and value are within bounds and there is room; it is exactly the one put, all others are kept, and a bounded document stays bounded |
| Documents.Remove | src/migration.cpp:258-265 | removal succeeds exactly when the key is present, and keeps the bounds |
| Replication.CommittedIsGapless | src/node.cpp:403-433 | dropping the records past the saved position leaves a gapless run that ends there, or nothing |
| Replication.ApplyBatchKeeps | src/node.cpp:1107-1143 | genuine records applied in order keep the document on the history, however far the batch gets |
| Replication.StepKeepsInv | src/node.cpp:451-513 | every write, crash, restart, snapshot, install, read and batch keeps both replicas on the history |
| Replication.ReplicasFollowHistory | src/node.cpp:896-1152 | from any document, position and gapless log of the predecessor, in every run the predecessor's document is the fold of all its writes since, a synchronized successor's (in memory and saved) the fold of exactly the writes up to its lsn, and both record lists are gapless runs ending at their lsn or empty |
| Replication.NewestAreKept | src/node.cpp:451-486 | after an append the log is the newest records: all of them within the limit, half the limit but at least one beyond it |
| Replication.TakenExactly | src/node.cpp:1107-1143 | one record is taken exactly from the expected source at the next position with room for it, and changes exactly its field |
| ReplicationProgress.SnapshotSynchronizes | src/node.cpp:896-1028 | a snapshot taken and installed leaves the successor, in memory and on disk, at the predecessor's document and position |
| ReplicationProgress.WriteAdvances | src/node.cpp:488-513 | an accepted write moves the predecessor by one position, in memory and on disk, and is the next of the history |
| ReplicationProgress.BatchAdvances | src/node.cpp:1030-1152 | a covered read and its batch move the successor by exactly what fits, in memory and on disk, up to the predecessor's fields |
| ReplicationProgress.CrashFallsBack | src/node.cpp:403-433 | a crash in a write, install or batch falls back to the saved document, position and committed records of that node alone |
| ReplicationProgress.RestartFallsBack | src/node.cpp:599-639 | so does a restart, and a save keeps what is in memory |
| ControlPlaneNode.ReopenAfterCrash | src/node.cpp:599-639 | any recoverable disk opens exactly when its files keep the limits they are read with and the boot counter is not exhausted; the node then has the saved document and lsn, exactly the committed records as a gapless run, a strictly greater boot counter and no usable authority |
| ControlPlaneNode.CrashKeepsOrLoses | src/node.cpp:488-513 | a crash at any durable point of an operation, if the disk opens, reopens to what was saved before it or to what it saved |
| NodeFiles.RestoreFields | src/node.cpp:341-351 | the loop restores the fields of an object one by one, and stops at the first that is no string or out of bounds |
| NodeFiles.RestoredListed | src/node.cpp:341-386 | the fields as they are saved, in key order, restore to themselves exactly when each key and value is within bounds |
| NodeFiles.RestoredExactly | src/node.cpp:341-351 | an object's entries restore if and only if each is a string within bounds and there are not too many, one field for each |
| NodeFiles.DamagedTextIsRefused | src/node.cpp:326-335 | a text that does not parse, is no object or has no object under "fields" is refused as damaged |
| NodeFiles.StateLoadsExactly | src/node.cpp:313-401 | a saved state file loads if and only if it is at most 4 MiB, holds at most 65536 fields, each within bounds, and its other entries keep the parser's limits; it then holds the fields that were saved |
| NodeFiles.LargeStateIsRefused | src/node.cpp:326-330 | a state whose values alone fill 4 MiB is refused as damaged, however the rest is laid out |
| NodeFiles.LogLoadsExactly | src/persistence.cpp:481-545 | a log of records that could be appended loads if and only if the file and the number of records are within the reader's limits, and then holds every record |
| ControlPlaneNode.ReopensExactly | src/node.cpp:599-639 | a disk opens if and only if boot counter, state file and log keep their limits, and nothing saved is lost |
| ControlPlaneNode.AcceptedWritesDoNotReopen | src/node.cpp:326-330 | a bounded document made by 64 or more accepted writes of 64 KiB is saved and refused on the next opening |
| ControlPlaneNode.OpenNode | src/node.cpp:599-639 | opening yields a valid node as `Reopen` says, or its refusal, which leaves the greater boot counter on disk and nothing else changed |
| ControlPlaneNode.Node.RestartIsReopening | src/node.cpp:262-304 | at every point a valid node that opens again comes back as the next incarnation of the single-writer model |
| ControlPlaneNode.LoadRecords | src/node.cpp:403-433 | the loop keeps exactly the committed records, and reports when it dropped any |
| ControlPlaneNode.Node.constructor | src/node.cpp:599-639 | a node opened on loaded files passes only through recoverable disks |
| ControlPlaneNode.Node.CompactRecords | src/node.cpp:463-486 | compaction keeps the newest records, in memory and on disk alike |
| ControlPlaneNode.Node.AppendRecordEntry | src/node.cpp:451-461 | an appended entry, compacted or not, leaves a gapless run and only recoverable disks on the way |
| ControlPlaneNode.Node.ApplyWrite | src/node.cpp:488-513 | a write does all of what the write function says or nothing, and every crash point in it is recoverable |
| ControlPlaneNode.Node.WriteRequest | src/node.cpp:1428-1462 | a write request takes effect only for a claim that is the node's own live authority, and otherwise changes nothing |
| ControlPlaneNode.Node.TakeSnapshot | src/node.cpp:896-944 | a snapshot is the document at its lsn |
| ControlPlaneNode.Node.InstallSnapshot | src/node.cpp:946-1028 | an install replaces document, lsn and records or changes nothing, at every crash point |
| ControlPlaneNode.Node.ReadRecordsSince | src/node.cpp:1030-1060 | the scan serves exactly the records after a position, up to the limit |
| ControlPlaneNode.Node.ApplyRecord | src/node.cpp:1107-1143 | one record extends the replica by exactly the next position or is refused without effect |
| ControlPlaneNode.BatchLetInExactly | src/node.cpp:1062-1106 | a batch is let in exactly when a source is expected for the handoff, incarnation, epoch, generation, token and schema agree, and it is not too long |
| ControlPlaneNode.Node.ApplyRecords | src/node.cpp:1062-1152 | a batch is refused whole or applied up to the first refused record, saved only when it was applied whole |
| ControlPlaneNode.Node.ApplyEach | src/node.cpp:1107-1143 | the loop applies the records in order up to the first refused one, and saves nothing |
| ControlPlaneNode.Node.Fence | src/node.cpp:1188-1237 | a fenced node keeps its lease only as evidence, and its fenced lease is on disk when it answers, also to a repeated fence |
| ControlPlaneNode.Node.GrantAuthority | src/node.cpp:1239-1306 | a granted node serves under exactly the lease delivered, which is on disk when it answers; a refusal changes nothing |
| ControlPlaneNode.Node.Reattest | src/node.cpp:1308-1335 | re-attestation confirms only the recorded, unexpired token |
| ControlPlaneNode.Node.Retire | src/node.cpp:1405-1426 | a retired node accepts nothing, and its marker is on disk when it answers |
| Replication.ReadFromRecords | src/node.cpp:1030-1060 | a read serves only records of the log, all past the position |
| CatchUp.ReadIsNextRecords | src/node.cpp:1030-1060 | a read the log still covers returns exactly the next records in order, as many as fit |
| CatchUp.NextRecordsApply | src/node.cpp:1107-1143 | those records all apply, and move the successor by their number |
| CatchUp.CatchUpRound | src/controller.cpp:1490-1529 | a round advances the successor by exactly min(batch, remaining gap) |
| CatchUp.FinalCatchUp | src/controller.cpp:1490-1541 | the loop reaches the predecessor's position exactly when the gap is at most rounds times batch, and the successor then holds the fenced predecessor's document (schemas equal) |
| CatchUp.TransferAuthority | src/controller.cpp:1484-1560 | after catch-up and grant the successor accepts writes with exactly the writes up to its position in its document and on its disk, and lacks none of the predecessor's if and only if the gap was at most rounds times batch |
| CatchUp.UncoveredGapRefused | src/node.cpp:1107-1143 | records that no longer reach back to the successor are refused and change nothing |
| Migration.ReadsExactly | src/migration.cpp:30-54 | parameters are read exactly when each is a text within bounds |
| Migration.ArgumentsAreTheEntries | src/migration.cpp:30-54 | the arguments are the entries, the first of each name |
| Migration.ResolvesExactly | src/migration.cpp:340-374 | a step resolves exactly when it is deterministic, its operation is one of the seven and its parameters can be read |
| Migration.TransformsExactly | src/migration.cpp:65-225 | when each operation succeeds, on its arguments and the fields |
| Migration.OtherFieldsStay | src/migration.cpp:65-225 | an operation changes no field it does not name |
| Migration.NamedFieldBecomes | src/migration.cpp:65-225 | what the field it names becomes, and when it is skipped |
| Migration.LowercaseExactly | src/migration.cpp:214-217 | lowercasing changes exactly the 26 capital letters of ASCII, each to its small letter, and nothing the second time |
| Migration.StepSucceedsExactly | src/migration.cpp:394-430 | when a step succeeds, and the document it leaves |
| Migration.MigratedMeansSealed | src/migration.cpp:405-416 | a migration that succeeds applied every sealed step to a document that matches its evidence |
| Migration.BrokenSealIsRefused | src/migration.cpp:405-416 | a step that starts where the document is and resolves, with other evidence than declared, fails the whole migration as damaged |
| Migration.CrossedInOrder | src/migration.cpp:430-442 | the boundaries reported are those of the steps, in order |
| Migration.StepUndone | src/migration.cpp:447-529 | a reversible step that had its field, or added an absent one, is undone exactly |
| Migration.RightKeysMeanUndoable | src/migration.cpp:447-529 | going back to the original set of keys is possible only if every step was undoable where it was applied |
| Migration.BackwardRestoresExactly | src/migration.cpp:386-529 | for every path on which a valid document migrates forward, migrating back restores fields and schema if and only if every step was undoable where it was applied |
| Migration.OverwritingAddIsNotUndone | src/migration.cpp:65-90 | for every key, old and new value, a reversible `add_field` on the existing key ends, on the way back, with the key gone |
| Migration.MigrateForward | src/migration.cpp:386-443 | the loop is the fold of the steps; a success had every step's evidence match, a broken seal is refused as damaged; on failure the document is unchanged; the crossed boundaries are reported in order |
| Migration.MigrateBackward | src/migration.cpp:447-529 | the loop undoes the steps last first; on failure the document is unchanged |
| ManifestPath.FindStepFrom | src/manifest.cpp:102-109 | the scan finds the first step from a schema, or there is none |
| ManifestPath.IncreasingFits | src/manifest.cpp:130-141 | steps with increasing sources drawn from a list are no more than the list |
| ManifestPath.MigrationPath | src/manifest.cpp:120-147 | the search returns a path exactly when following first-matching, strictly advancing steps arrives; the guard never ends it |
| ManifestPath.CrossesIrreversibleBoundary | src/manifest.cpp:149-156 | true exactly when the found path has a boundary for the migrator to report |
| ManifestPath.FoundPathMigrates | src/migration.cpp:394-442 | on a found path the contiguity check never fails, and success ends at the wanted schema |
| ManifestPath.DeclaredListIsPathExactly | src/controller.cpp:1300-1330 | the declared list is the validated path exactly when it is contiguous in declared order |
| ManifestPath.ArrivalMeansPath | src/controller.cpp:1300-1330 | a migration over the declared list that succeeds ran exactly the path to where it ended |
| ManifestPath.OutOfOrderIsRefused | src/migration.cpp:394-400 | two steps declared the other way round have a path and are refused |
| JsonStrings.ByteReadsBack | src/json.cpp:19-57 | every byte, escaped, reads back as itself whatever follows |
| JsonStrings.BodyReadsBack | src/json.cpp:332-423 | every byte string within the limit reads back from its escaped form |
| JsonUnicode.Utf8IsWellFormed | src/json.cpp:288-304 | what is written for a code point decodes, as its one well-formed UTF-8 sequence, to that code point |
| JsonUnicode.UnicodeReadsBack | src/json.cpp:385-411 | every code point reads back from its escape as its UTF-8 form, through a surrogate pair outside the basic plane |
| JsonUnicode.SurrogateNeedsItsPair | src/json.cpp:390-409 | an escape for half of a surrogate pair is read if and only if it is the first half and an escape for the second follows at once |
| JsonNumbers.IntegerReadsBack | src/json.cpp:425-494 | every 64-bit integer reads back from its decimal form, a non-negative one as unsigned, whatever non-number follows |
| JsonRoundTrip.ValueReadsBack | src/json.cpp:145-283 | a printed value is read to its end and no further, at any depth the limits allow |
| JsonRoundTrip.ParseOfDump | src/json.cpp:667-734 | parsing the compact form of any value within the limits returns it |
| JsonRoundTrip.EqualIsSameNormal | src/json.cpp:750-761 | the runtime's equality is equality up to the type that stores a non-negative integer |
| JsonRoundTrip.DumpIsInjective | src/json.cpp:736-761 | two values within some limits have the same compact form if and only if they are equal |
| JsonLimits.InsertKeepsSorted | src/json.cpp:195-249 | adding a new key keeps the entries sorted and adds exactly that entry |
| JsonLimits.AcceptedIsLimited | src/json.cpp:97-506 | every accepted text gives a value within depth, string, entry and integer limits, keys distinct and sorted |
| JsonExact.ValueWider | src/json.cpp:145-184 | what is accepted under some limits is accepted, as the same value, under wider ones |
| JsonExact.DumpReadsBackExactly | src/json.cpp:667-773 | the compact form of any printable value is accepted if and only if the text and the value are within the limits, and then reads back as the value |
| JsonGrammar.HexDigitsExactly | src/json.cpp:306-330 | a hex digit is worth its place in the row of digits in either case, and no other byte is one |
| JsonTokens.CharacterComplete | src/json.cpp:340-416 | every character of the grammar is read to its end |
| JsonTokens.CharacterSound | src/json.cpp:340-416 | every character that is read is one of the grammar |
| JsonTokens.NumberComplete | src/json.cpp:425-497 | every number of the grammar is read to its end |
| JsonTokens.NumberSound | src/json.cpp:425-497 | every number that is read is one of the grammar |
| JsonTokens.NumberMeans | src/json.cpp:465-497 | an integer that fits 64 bits is that integer, anything else a floating-point value if it has one |
| JsonSound.AcceptedIsGrammatical | src/json.cpp:97-506 | whatever is accepted is white space, the text of a tree of the grammar with the returned value, and white space |
| JsonComplete.TextAcceptedExactly | src/json.cpp:97-506 | a text of the grammar, with any white space around its tokens and its keys in any order, is accepted with its value if and only if the text and the value are within the limits and only white space follows |
| JsonComplete.AcceptedExactly | src/json.cpp:765-773 | the parser accepts exactly the texts of the grammar whose value is within the limits, and returns that value |
| JsonComplete.SpacingIsMeaningless | src/json.cpp:127-136 | trees with the same tokens have the same value, whatever white space is between them |
| JsonComplete.EveryTextReadsBack | src/json.cpp:97-506 | however a value is written, it reads back if and only if text and value are within the limits and nothing else follows |
| JsonComplete.EveryLayoutReadsBack | src/json.cpp:97-506 | the compact form laid out with any white space reads back as the value, exactly within the limits |
| JsonPrinter.AppendEscaped | src/json.cpp:19-57 | the loop appends exactly the escaped form |
| JsonPrinter.DumpArray | src/json.cpp:682-704 | the loop appends the elements in order, a comma between any two, in brackets |
| JsonPrinter.DumpObject | src/json.cpp:705-733 | likewise for entries, each key escaped before its value |
| JsonPrinter.DumpValue | src/json.cpp:667-734 | the recursive printer appends exactly the compact form |
| JsonParser.Parser.SkipWhitespace | src/json.cpp:127-136 | the position moves past exactly the leading white space |
| JsonParser.Parser.ParseLiteral | src/json.cpp:186-193 | a word is read exactly when the unread text starts with it |
| JsonParser.Parser.ParseHex4 | src/json.cpp:306-330 | the loop reads the number of four hexadecimal digits, or refuses |
| JsonParser.Parser.ParseUnicode | src/json.cpp:385-411 | an escape, or two for a surrogate pair, is read as specified |
| JsonParser.Parser.ParseCharacter | src/json.cpp:340-416 | one character of a string body is read as specified |
| JsonParser.Parser.ParseString | src/json.cpp:332-423 | the loop reads what the string specification reads, and stops where it stops |
| JsonParser.Parser.ParseNumber | src/json.cpp:425-497 | likewise for numbers |
| JsonParser.Parser.ParseArray | src/json.cpp:251-286 | likewise for arrays |
| JsonParser.Parser.ParseObject | src/json.cpp:195-249 | likewise for objects |
| JsonParser.Parser.ParseValue | src/json.cpp:145-184 | likewise for any value |
| JsonParser.Parser.Run | src/json.cpp:101-124 | one value and nothing else but white space |
| JsonParser.ParseText | src/json.cpp:765-773 | the whole parser accepts exactly what the specification accepts, with the same value |
| Framing.EncodeFrame | src/framing.cpp:21-43 | a frame is written field by field as the format says, or refused when too long |
| Framing.FrontStands | src/framing.cpp:71-111 | once the front of the buffer is decided, more bytes do not change the decision |
| Framing.ScanInTwo | src/framing.cpp:55-119 | bytes arriving in two parts give the frames of the whole |
| Framing.ChunkingIsIrrelevant | src/framing.cpp:55-119 | however a stream is cut, feeding it without error gives the frames and the leftover of the whole stream |
| Framing.FeedingSucceedsExactly | src/framing.cpp:55-119 | feeding succeeds exactly when the stream scans without error and every chunk finds room in the buffer |
| Framing.SmallChunksFindRoom | src/framing.cpp:59-64 | chunks no larger than the bound less an unfinished frame always find room |
| Framing.ScanOfEncodings | src/framing.cpp:21-119 | concatenated encodings scan back to exactly their frames with nothing left |
| Framing.RestIsShort | src/framing.cpp:99-101 | what waits in the buffer is always less than one frame |
| Framing.AcceptedIsEncoding | src/framing.cpp:66-111 | an accepted frame fits the limit, and its bytes are its encoding if and only if the two reserved header bytes are zero |
| Framing.RefusedExactly | src/framing.cpp:66-111 | exactly which bytes are refused, each with its code, and which are still awaited |
| Framing.DamagedStreamScans | src/framing.cpp:55-119 | whole frames followed by refused bytes give the frames and then the refusal |
| Framing.DecodesWhatWasEncoded | src/framing.cpp:21-119 | every chunking of the encodings of frames that respects the buffer bound decodes to exactly those frames with nothing left |
| Framing.FrameDecoder.TakeFrames | src/framing.cpp:66-118 | the loop takes exactly the frames the scan finds, and stops where it stops |
| Framing.FrameDecoder.FeedChunk | src/framing.cpp:55-119 | the loop emits and keeps what the feed function says, and resets on every error |
| Framing.FrameDecoder.Finish | src/framing.cpp:47-53 | the end of the stream is refused exactly inside a frame |
| RecordLog.AppendRecord | src/persistence.cpp:451-479 | an append adds exactly the record's encoding, or is refused and changes nothing |
| RecordLog.ReadRecords | src/persistence.cpp:481-545 | an absent file is an empty log, a file beyond the size limit is refused, any other reads as the reading function says |
| RecordLog.FormatDelimits | src/persistence.cpp:493-540 | a written record is read back whatever follows it, and cut anywhere it reads as truncated |
| RecordLog.ScanRecords | src/persistence.cpp:491-544 | the loop reports what the reading function reports, whatever reads one record |
| RecordLog.WholeIsEncoding | src/persistence.cpp:497-540 | bytes read as a record are its encoding if and only if the four reserved header bytes are zero |
| RecordLog.DamagedExactly | src/persistence.cpp:497-540 | exactly which bytes are read as damaged and which as truncated |
| RecordLog.AlteredRecordIsBroken | src/persistence.cpp:505-540 | a record whose magic or version is altered, or whose payload and checksum do not match any more, is one of them |
| RecordLog.DamagedLogReadsExactly | src/persistence.cpp:481-545 | a log with damage after some whole records reports those records, the damage and the rest as left over, and no truncation |
| RecordLog.EndedByExactly | src/persistence.cpp:481-545 | exactly the first so many records end at or before a position |
| RecordLog.CutLogReadsExactly | src/persistence.cpp:481-545 | the first k bytes of a log read as exactly the records that end by k, truncated if and only if k is no record boundary, with the leftover count, and never damaged |
| RecordLog.WholeLogReadsBack | src/persistence.cpp:451-545 | a log reads back as the records appended to it |
| RecordLog.LongLogIsRefused | src/persistence.cpp:493-496 | a log with more records than the reader permits is refused as a whole |
| Sha256.Hasher.Update | src/digest.cpp:150-173 | any data is taken in: whole blocks compressed, the rest buffered, the length counted modulo 2^64 |
| Sha256.Hasher.PadZeros | src/digest.cpp:183-186 | the zero-padding loop ends after exactly the zeros the standard asks for |
| Sha256.Hasher.Finalize | src/digest.cpp:179-201 | the digest is the fold of the compression function over the padded message |
| Sha256.HashInChunks | src/digest.cpp:150-201 | the same for every split of the message into updates |
| Sha256.PaddingIsInjective | src/digest.cpp:179-191 | two messages within the standard's length limit pad differently unless equal |
| Sha256.AbcIsPadded | src/digest.cpp:179-191 | the standard's example message pads to the standard's block |
| Sha256.WordsReadBack | src/digest.cpp:193-201 | the digest writes each word in four bytes, most significant first, in order |
| Crc32.ShiftsIsLinear | src/digest.cpp:43-53 | steps of the register distribute over exclusive or |
| Crc32.EightSteps | src/digest.cpp:215-222 | eight steps are the table entry of the low byte added to the register moved by a byte |
| Crc32.TakeBitsAtOnce | src/digest.cpp:215-222 | taking bits in one at a time is adding them at once and stepping as often |
| Crc32.TableRound | src/digest.cpp:218-220 | one round of the checksum loop takes in exactly the eight bits of a byte |
| Crc32.TableEntry | src/digest.cpp:46-50 | the inner loop makes eight steps of the register |
| Crc32.UpdateThrough | src/digest.cpp:215-222 | the checksum loop, for any polynomial and initial register, is the bit-at-a-time register over the message |
| Crc32.BuildTable | src/digest.cpp:43-53 | the nested loops build, for every byte, eight steps of the register |
| Crc32.Checksum | src/digest.cpp:215-222 | for every byte sequence the table-driven checksum is the bit-at-a-time reflected CRC |
| Handoff.Rank | src/handoff.cpp:69-76 | a forward phase's rank is its position in the forward order, and no other phase has one |
| Handoff.NextPhase | src/handoff.cpp:78-87 | the next phase exists exactly before the last rank and is one rank on |
| Handoff.TransitionExactly | src/handoff.cpp:98-121 | a transition is allowed exactly when it changes nothing, ends a handoff not failed or aborted, or goes forward by one |
| Handoff.ReconciledExactly | src/controller.cpp:1076-1098 | a handoff restarts if and only if the predecessor was replaced before rank 5 or the successor before rank 6 and attempts are left: from the start below rank 5, from its snapshot at rank 5; at the eighth attempt it is refused |
| Handoff.NoPhaseSkipped | src/handoff.cpp:98-121 | a life that reaches a rank notes its phase coming from the rank before |
| Handoff.TransferNeedsFreshSnapshot | src/controller.cpp:1076-1098 | after a restart for a replaced successor authority is transferred only once a snapshot, the catch-up and the transfer were noted again, in this order |
| Handoff.EndedForGood | src/handoff.cpp:98-121 | a failed or aborted handoff never goes on |
| Handoff.AbortedForGood | src/controller.cpp:1964-1969 | an abort ends a handoff at any phase, for good |
| Handoff.StepKeepsBound | src/controller.cpp:884-998 | noting, restarting, reconciling and aborting keep forward transitions within 4·(attempt−1) + rank |
| Handoff.ForwardTransitionsBounded | src/controller.cpp:1076-1098 | over the whole life of a handoff in memory at most 36 forward transitions are recorded (the cruder 5·7+8 = 43 follows) |
| Handoff.KeptTransitionsBounded | src/controller.cpp:884-998 | with saves and reloads of older records in any order, the handoff in memory and the saved one have at most 36 behind them, and every further one noted was forgotten by a reload |
| Handoff.ForgottenWithoutBound | src/controller.cpp:884-929 | with reloads any number of transitions can be noted and forgotten |
| Handoff.BoundIsReached | src/controller.cpp:936-998 | some life of a handoff records exactly 36 and retires |
| Handoff.Controller.RecordPhase | src/controller.cpp:884-929 | recording moves the phase as the transition rule allows, even when saving then fails; a success is saved |
| Handoff.Controller.RestartHandoff | src/controller.cpp:937-998 | a restart rewinds and counts an attempt, even when saving then fails and an error is returned, or is refused unchanged |
| Handoff.Controller.ReloadState | src/controller.cpp:210-300 | a controller that starts again goes on with the saved handoff, within the same bound |
| Handoff.Controller.ReconcileIncarnations | src/controller.cpp:1076-1098 | replaced participants rewind the handoff as the exact law says, and the answer is its refusal when it refuses |
| Handoff.Controller.Proceed | src/controller.cpp:1690-1759 | the same for the part of a step after a handoff exists |
| Handoff.Controller.Advance | src/controller.cpp:1666-1759 | a success that leaves the campaign going records exactly one forward transition; nothing moves when a node does not answer; a success goes one phase on from where replaced participants leave it; a calm step always succeeds; an exhausted window alone pauses the campaign |
| Handoff.Controller.RunToCompletion | src/controller.cpp:1761-1797 | the 64-step limit is never what stops a run, whatever happens at each step, and a run with nothing in its way ends in retirement |
| Negotiation.NegotiateGroup | src/protocol.cpp:208-292 | the loops come to the group outcome |
| Negotiation.GroupAgrees | src/protocol.cpp:208-292 | that outcome is the one wanted of the set of participants: admissible, lowest version accepted, features offered by all |
| Negotiation.SameParticipantsSameOutcome | src/protocol.cpp:208-292 | participants in any order, and presented any number of times, come to the same outcome |
| Negotiation.PermutationInvariant | src/protocol.cpp:208-292 | in particular under every permutation |
| Negotiation.TwoPartiesAgree | src/protocol.cpp:149-206 | on two participants, with no required participants, the group and two-party negotiations agree in every field |
| Negotiation.UsableOutcomeExactly | src/protocol.cpp:265-292 | a usable outcome enables exactly the allowed features every participant offers, all required ones included, and is compatible exactly when all are at the effective version |
| Negotiation.UsableExactly | src/protocol.cpp:208-292 | usable if and only if the participants are admissible, their lowest version is accepted and every required feature is offered by all |

## Left out

- SingleWriter.StepKeepsInv: one clock is shared by registry and nodes, the controller's lease time-to-live is fixed, the clock plus a lease stays below 2^64, a delivery reaches the incarnation the lease names, and a re-attestation reaches the incarnation the report named (no restart in between; `SingleWriterLimits.ReattestExact` and `StaleReattestIsReached` say what happens otherwise); clocks that drift apart are not modelled.
- SingleWriter.AtMostOneWriter: covers the controller's grants through `ensure_holder_authority`, fencing and transfer; a withdrawn renewal of a lease in use and a lost reply to a grant are not steps of the system (`SingleWriterLimits` gives the exact condition for each), nor is a controller crash between delivery and save.
- AuthorityRuns.StepKeepsWellFormed: an operation takes one clock reading; `grant`'s second reading is treated separately in `AuthorityLimits.SecondClockReadingExact`.
- Replication.ReplicasFollowHistory: holds up to the migration step; records applied to an already migrated document (`src/controller.cpp:1490-1529`) follow the old schema's writes and are not related to the migrated form.
- ControlPlaneNode.ReopensExactly: the entries of the state object other than "fields" and the text of a log record are parameters, in key order and without floating-point numbers; that lease, positions, markers and records read back from them is assumed.
- ControlPlaneNode.Node.ApplyWrite: every save succeeds; a save refused because the state text exceeds 64 MiB (`src/persistence.cpp:341-344`) or because the file system fails is not modelled, here or in the other operations.
- ControlPlaneNode.CrashKeepsOrLoses: a durable operation is atomic; torn appends are the subject of `RecordLog`, and a failing file-system call is a crash rather than an error return.
- JsonRoundTrip.ParseOfDump: values with floating-point numbers are excluded; the parser's grammar for them is modelled, their printed form and value are the standard library's.
- Handoff.Controller.Advance: what a phase's work answers (nodes, window, renewal, saving) is an arbitrary input; the remote calls of each phase are not repeated there.
- Lease text (reasons, campaign and handoff ids, attestation counters) and every diagnostic message and explanation.
- Token and identifier generation: tokens and ids are arbitrary non-zero inputs.
- The SHA-256 round function and any argument about collisions: the compression function is an arbitrary parameter, digests of migration evidence an arbitrary function.
- Sockets, threads, worker pools, RPC framing of requests, file locks, backups and fsync ordering.
- Field-by-field record codecs (`to_json`/`from_json` of leases, manifests, campaigns, hellos): save and restore copy the structure.
- Pretty printing, the campaign action table, window accounting, feature names and version parsing, command line and status documents.
- The rest of manifest validation (identity, compatibility evidence, protocol path), and `FeatureSet` as machine words: features are sets of numbers.
- Machine sizes of in-memory lengths: `size_t` additions cannot overflow on the lengths involved and are unbounded here; every persisted counter keeps its 32- or 64-bit width.
