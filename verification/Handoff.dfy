/** The handoff phase machine, its bounded restarts, and the loop that drives a handoff to retirement. */
module Handoff {
  import opened Common

  const MAX_RESTARTS: nat := 8
  const MAX_STEPS: nat := 64

  datatype Phase =
    | NotStarted | Prepared | SnapshotSynchronized | CaughtUp | ReadinessVerified
    | PredecessorFenced | AuthorityTransferred | SuccessorVerified | PredecessorRetired
    | Failed | Aborted

  const FORWARD: seq<Phase> := [
    NotStarted, Prepared, SnapshotSynchronized, CaughtUp, ReadinessVerified,
    PredecessorFenced, AuthorityTransferred, SuccessorVerified, PredecessorRetired]

  /** The declared order of the phases. */
  function Order(phase: Phase): nat {
    match phase
    case NotStarted => 0
    case Prepared => 1
    case SnapshotSynchronized => 2
    case CaughtUp => 3
    case ReadinessVerified => 4
    case PredecessorFenced => 5
    case AuthorityTransferred => 6
    case SuccessorVerified => 7
    case PredecessorRetired => 8
    case Failed => 9
    case Aborted => 10
  }

  predicate IsForward(phase: Phase) { phase != Failed && phase != Aborted }

  function Rank(phase: Phase): (r: int)
    ensures r < |FORWARD|
    ensures r >= 0 ==> FORWARD[r] == phase
    ensures r < 0 ==> phase !in FORWARD
  {
    if IsForward(phase) then Order(phase) else -1
  }

  function NextPhase(phase: Phase): (r: Option<Phase>)
    ensures r.Some? <==> 0 <= Rank(phase) < |FORWARD| - 1
    ensures r.Some? ==> Rank(r.value) == Rank(phase) + 1
  {
    if !IsForward(phase) || Rank(phase) + 1 >= |FORWARD| then None else Some(FORWARD[Rank(phase) + 1])
  }

  function ValidateTransition(from: Phase, to: Phase): Status {
    if from == to then SUCCESS
    else if !IsForward(from) && from != NotStarted then Err(IllegalTransition)
    else if to == Failed || to == Aborted then SUCCESS
    else if NextPhase(from) != Some(to) then Err(IllegalTransition)
    else SUCCESS
  }

  /** A transition is allowed exactly when it changes nothing, ends a handoff that has not failed or been aborted,
      or goes forward by one. */
  lemma TransitionExactly(from: Phase, to: Phase)
    ensures ValidateTransition(from, to).Ok?
       <==> from == to || (IsForward(from) && (!IsForward(to) || Rank(to) == Rank(from) + 1))
  {
    if IsForward(to) && Rank(to) == Rank(from) + 1 { assert FORWARD[Rank(to)] == to; }
  }

  // ---------------------------------------------------------------- one handoff record

  datatype Record = Record(phase: Phase, attempt: nat)

  const FIRST: Record := Record(NotStarted, 1)

  /** The record after noting a phase; it stays as it is when the phase is already there. */
  function Recorded(h: Record, to: Phase): Result<Record> {
    var valid := ValidateTransition(h.phase, to);
    if valid.Err? then Err(valid.code) else Ok(h.(phase := to))
  }

  function Restarted(h: Record, rewindTo: Phase): Result<Record> {
    if rewindTo != NotStarted && rewindTo != Prepared then Err(InvalidArgument)
    else if h.attempt >= MAX_RESTARTS then Err(ResourceExhausted)
    else Ok(Record(rewindTo, h.attempt + 1))
  }

  /** What is done about participants whose process was provably replaced. */
  function Reconciled(h: Record, predecessorReplaced: bool, successorReplaced: bool): Result<Record> {
    if predecessorReplaced && Order(h.phase) < Order(PredecessorFenced) then Restarted(h, NotStarted)
    else if successorReplaced && Order(h.phase) < Order(AuthorityTransferred) then
      Restarted(h, if Order(h.phase) >= Order(PredecessorFenced) then Prepared else NotStarted)
    else Ok(h)
  }

  // ---------------------------------------------------------------- the whole life of one handoff

  /** Whatever happens to a handoff record: a phase is noted, replaced participants are reconciled, or the campaign
      is aborted. */
  datatype Event = Note(to: Phase) | Reconcile(predecessorReplaced: bool, successorReplaced: bool) | Abort

  /** A record and how many forward transitions were ever noted on it. */
  datatype Life = Life(record: Record, forward: nat)

  const BIRTH: Life := Life(FIRST, 0)

  function Step(l: Life, e: Event): (r: Life)
    ensures l.forward <= r.forward
  {
    match e
    case Note(to) =>
      var r := Recorded(l.record, to);
      if r.Err? || to == l.record.phase then l
      else Life(r.value, if IsForward(to) then l.forward + 1 else l.forward)
    case Reconcile(predecessorReplaced, successorReplaced) =>
      var r := Reconciled(l.record, predecessorReplaced, successorReplaced);
      if r.Err? then l else l.(record := r.value)
    case Abort => l.(record := l.record.(phase := Aborted))
  }

  function Run(l: Life, events: seq<Event>): Life {
    if events == [] then l else Step(Run(l, events[..|events| - 1]), events[|events| - 1])
  }

  /** The number of forward transitions a record can have behind it. */
  function Allowance(h: Record): int {
    if IsForward(h.phase) then 4 * (h.attempt - 1) + Rank(h.phase) else 36
  }

  predicate Bounded(l: Life) { 1 <= l.record.attempt <= MAX_RESTARTS && l.forward <= Allowance(l.record) }

  lemma StepKeepsBound(l: Life, e: Event)
    requires Bounded(l)
    ensures Bounded(Step(l, e)) && l.forward <= Step(l, e).forward <= l.forward + 1
  {
    if e.Note? { TransitionExactly(l.record.phase, e.to); }
  }

  /** Over the whole life of one handoff, restarts included, at most 36 forward transitions are noted. */
  lemma {:induction false} ForwardTransitionsBounded(events: seq<Event>)
    ensures Bounded(Run(BIRTH, events)) && Run(BIRTH, events).forward <= 36
  {
    if events != [] {
      ForwardTransitionsBounded(events[..|events| - 1]);
      StepKeepsBound(Run(BIRTH, events[..|events| - 1]), events[|events| - 1]);
    }
  }

  lemma RunOneMore(l: Life, events: seq<Event>, e: Event)
    ensures Run(l, events + [e]) == Step(Run(l, events), e)
  {
    assert (events + [e])[..|events|] == events;
  }

  /** The phases noted one after the other up to some rank. */
  function Onwards(rank: nat): seq<Event>
    requires rank < |FORWARD|
  {
    if rank == 0 then [] else Onwards(rank - 1) + [Note(FORWARD[rank])]
  }

  lemma {:induction false} OnwardsAllCount(events: seq<Event>, attempt: nat, forward: nat, rank: nat)
    requires rank < |FORWARD| && Run(BIRTH, events) == Life(Record(NotStarted, attempt), forward)
    ensures Run(BIRTH, events + Onwards(rank)) == Life(Record(FORWARD[rank], attempt), forward + rank)
  {
    if rank == 0 {
      assert events + [] == events;
    } else {
      OnwardsAllCount(events, attempt, forward, rank - 1);
      assert events + Onwards(rank) == events + Onwards(rank - 1) + [Note(FORWARD[rank])];
      RunOneMore(BIRTH, events + Onwards(rank - 1), Note(FORWARD[rank]));
      RankOf(rank);
      RankOf(rank - 1);
      TransitionExactly(FORWARD[rank - 1], FORWARD[rank]);
    }
  }

  lemma RankOf(rank: nat)
    requires rank < |FORWARD|
    ensures Rank(FORWARD[rank]) == rank
  {
  }

  /** Some phases and then a replaced predecessor, again and again. */
  function Detours(n: nat, rank: nat): seq<Event>
    requires rank < |FORWARD|
  {
    if n == 0 then [] else Detours(n - 1, rank) + Onwards(rank) + [Reconcile(true, false)]
  }

  lemma ReplacedPredecessor(l: Life)
    requires Order(l.record.phase) < Order(PredecessorFenced) && l.record.attempt < MAX_RESTARTS
    ensures Step(l, Reconcile(true, false)) == Life(Record(NotStarted, l.record.attempt + 1), l.forward)
  {
  }

  lemma OneDetour(events: seq<Event>, attempt: nat, forward: nat, rank: nat)
    requires attempt < MAX_RESTARTS && rank < Order(PredecessorFenced)
    requires Run(BIRTH, events) == Life(Record(NotStarted, attempt), forward)
    ensures Run(BIRTH, events + Onwards(rank) + [Reconcile(true, false)])
         == Life(Record(NotStarted, attempt + 1), forward + rank)
  {
    OnwardsAllCount(events, attempt, forward, rank);
    RunOneMore(BIRTH, events + Onwards(rank), Reconcile(true, false));
    RankOf(rank);
    ReplacedPredecessor(Life(Record(FORWARD[rank], attempt), forward + rank));
  }

  lemma {:induction false} DetoursAllCount(n: nat, rank: nat)
    requires n < MAX_RESTARTS && rank == 4
    ensures Run(BIRTH, Detours(n, rank)) == Life(Record(NotStarted, n + 1), 4 * n)
  {
    if n > 0 {
      DetoursAllCount(n - 1, rank);
      OneDetour(Detours(n - 1, rank), n, 4 * (n - 1), rank);
    }
  }

  /** The bound is reached: a handoff restarted as often as allowed can note 36 and still retire. */
  lemma BoundIsReached()
    ensures exists events :: Run(BIRTH, events) == Life(Record(PredecessorRetired, MAX_RESTARTS), 36)
  {
    var rank, last := 4, 8;
    DetoursAllCount(7, rank);
    OnwardsAllCount(Detours(7, rank), 8, 28, last);
  }

  // ---------------------------------------------------------------- replaced participants

  /** A replaced predecessor matters before rank 5 (fenced), a replaced successor before rank 6 (transferred). */
  predicate MustRestart(h: Record, predecessorReplaced: bool, successorReplaced: bool) {
    IsForward(h.phase) && ((predecessorReplaced && Rank(h.phase) < 5) || (successorReplaced && Rank(h.phase) < 6))
  }

  /** A handoff is restarted exactly when it must be and has attempts left: from the start, or from its snapshot when
      the predecessor was fenced already. At the eighth attempt it is refused instead; otherwise nothing changes. */
  lemma ReconciledExactly(h: Record, predecessorReplaced: bool, successorReplaced: bool)
    ensures var r := Reconciled(h, predecessorReplaced, successorReplaced);
            if !MustRestart(h, predecessorReplaced, successorReplaced) then r == Ok(h)
            else if h.attempt >= 8 then r == Err(ResourceExhausted)
            else r == Ok(Record(if Rank(h.phase) == 5 then Prepared else NotStarted, h.attempt + 1))
  {
  }

  /** No phase is skipped: a life that gets from below rank `k` to it or beyond notes the phase of rank `k`, coming from
      the rank before. */
  lemma {:induction false} NoPhaseSkipped(l: Life, events: seq<Event>, k: nat) returns (i: nat)
    requires Rank(l.record.phase) < k <= Rank(Run(l, events).record.phase)
    ensures i < |events| && events[i] == Note(FORWARD[k]) && Rank(Run(l, events[..i]).record.phase) == k - 1
  {
    var n := |events| - 1;
    var before := Run(l, events[..n]);
    if k <= Rank(before.record.phase) {
      i := NoPhaseSkipped(l, events[..n], k);
      assert events[..n][..i] == events[..i];
    } else {
      i := n;
      match events[n]
      case Note(to) => TransitionExactly(before.record.phase, to);
      case Reconcile(p, q) => ReconciledExactly(before.record, p, q);
      case Abort =>
    }
  }

  /** After a restart for a replaced successor, authority is transferred only once a snapshot was taken, the successor
      caught up and the transfer was noted, in this order and all since the restart. */
  lemma TransferNeedsFreshSnapshot(l: Life, predecessorReplaced: bool, events: seq<Event>)
      returns (snapshot: nat, caughtUp: nat, transfer: nat)
    requires 0 <= Rank(l.record.phase) < 6 && l.record.attempt < 8
    requires Rank(Run(Step(l, Reconcile(predecessorReplaced, true)), events).record.phase) >= 6
    ensures snapshot < caughtUp < transfer < |events|
    ensures events[snapshot] == Note(SnapshotSynchronized) && events[caughtUp] == Note(CaughtUp)
    ensures events[transfer] == Note(AuthorityTransferred)
  {
    ReconciledExactly(l.record, predecessorReplaced, true);
    var restarted := Step(l, Reconcile(predecessorReplaced, true));
    transfer := NoPhaseSkipped(restarted, events, 6);
    caughtUp := NoPhaseSkipped(restarted, events[..transfer], 3);
    assert events[..transfer][..caughtUp] == events[..caughtUp];
    snapshot := NoPhaseSkipped(restarted, events[..caughtUp], 2);
  }

  /** A handoff that failed or was aborted never goes on. */
  lemma {:induction false} EndedForGood(l: Life, events: seq<Event>)
    requires !IsForward(l.record.phase)
    ensures !IsForward(Run(l, events).record.phase) && Run(l, events).forward == l.forward
    ensures Run(l, events).record.attempt == l.record.attempt
  {
    if events != [] {
      var before := Run(l, events[..|events| - 1]);
      EndedForGood(l, events[..|events| - 1]);
      match events[|events| - 1]
      case Note(to) => TransitionExactly(before.record.phase, to);
      case Reconcile(p, q) => ReconciledExactly(before.record, p, q);
      case Abort =>
    }
  }

  /** An abort ends a handoff at any phase, for good. */
  lemma AbortedForGood(l: Life, events: seq<Event>)
    ensures Step(l, Abort).record.phase == Aborted && Step(l, Abort).forward == l.forward
    ensures !IsForward(Run(Step(l, Abort), events).record.phase)
  {
    EndedForGood(Step(l, Abort), events);
  }

  // ---------------------------------------------------------------- a life with reloads

  /** What happens to a handoff and to its saved copy: a change in memory, a save, or a controller that starts again
      from the saved copy and forgets what was not saved. */
  datatype Happening = Change(event: Event) | Save | Reload

  /** The handoff in memory and as saved, all forward transitions ever noted, and those that reloads forgot. */
  datatype Kept = Kept(live: Life, saved: Life, noted: nat, lost: nat)

  const NEWBORN: Kept := Kept(BIRTH, BIRTH, 0, 0)

  function KeptStep(k: Kept, h: Happening): Kept
    requires k.saved.forward <= k.live.forward
  {
    match h
    case Change(event) =>
      var next := Step(k.live, event);
      k.(live := next, noted := k.noted + (next.forward - k.live.forward))
    case Save => k.(saved := k.live)
    case Reload => k.(live := k.saved, lost := k.lost + (k.live.forward - k.saved.forward))
  }

  function KeptRun(happenings: seq<Happening>): (k: Kept)
    ensures k.saved.forward <= k.live.forward
  {
    if happenings == [] then NEWBORN
    else KeptStep(KeptRun(happenings[..|happenings| - 1]), happenings[|happenings| - 1])
  }

  /** However often the controller is reloaded from an older record, the handoff it goes on with has at most 36
      forward transitions behind it; and every transition that was noted beyond those was forgotten by a reload. */
  lemma {:induction false} KeptTransitionsBounded(happenings: seq<Happening>)
    ensures var k := KeptRun(happenings);
            && Bounded(k.live) && Bounded(k.saved) && k.live.forward <= 36 && k.noted == k.live.forward + k.lost
            && (Reload !in happenings ==> k.lost == 0 && k.noted <= 36)
  {
    if happenings != [] {
      var before, last := happenings[..|happenings| - 1], happenings[|happenings| - 1];
      KeptTransitionsBounded(before);
      assert happenings == before + [last];
      if last.Change? { StepKeepsBound(KeptRun(before).live, last.event); }
    }
  }

  /** The first phase noted, forgotten and noted again. */
  function Forgetful(n: nat): seq<Happening> {
    if n == 0 then [] else Forgetful(n - 1) + [Change(Note(Prepared))] + [Reload]
  }

  /** With reloads there is no bound on what is noted: every number is reached without a save. */
  lemma {:induction false} ForgottenWithoutBound(n: nat)
    ensures KeptRun(Forgetful(n)) == Kept(BIRTH, BIRTH, n, n)
  {
    if n > 0 {
      ForgottenWithoutBound(n - 1);
      KeptOneMore(Forgetful(n - 1), Change(Note(Prepared)));
      KeptOneMore(Forgetful(n - 1) + [Change(Note(Prepared))], Reload);
      TransitionExactly(NotStarted, Prepared);
    }
  }

  lemma KeptOneMore(happenings: seq<Happening>, h: Happening)
    ensures KeptRun(happenings + [h]) == KeptStep(KeptRun(happenings), h)
  {
    assert (happenings + [h])[..|happenings|] == happenings;
  }

  // ---------------------------------------------------------------- the controller

  datatype Campaign = Running | Paused | Ended

  /** What the world answers during one advance. */
  datatype World = World(
    begins: bool, nodesAnswer: bool, predecessorReplaced: bool, successorReplaced: bool, renewed: bool,
    windowExhausted: bool, phaseWorks: bool, saved: bool, completes: bool, restartSaved: bool)

  /** Nothing stands in the way of an advance. */
  predicate Calm(w: World) {
    && w.nodesAnswer && !w.predecessorReplaced && !w.successorReplaced && w.renewed && !w.windowExhausted
    && w.phaseWorks && w.saved && w.completes
  }

  /** What a successful step makes of a handoff: one phase on from where the replaced participants leave it, or nothing
      once the predecessor is retired. */
  predicate Onward(before: Record, w: World, after: Record) {
    var h := Reconciled(before, w.predecessorReplaced, w.successorReplaced);
    && h.Ok? && after.attempt == h.value.attempt
    && (after.phase == h.value.phase == PredecessorRetired || NextPhase(h.value.phase) == Some(after.phase))
  }

  /** The answer to one step of a running campaign: nothing moves when a node does not answer; a success goes one phase
      on; a calm world makes every step a success that keeps the campaign running until retirement; and an exhausted
      window alone pauses the campaign. */
  predicate Answered(before: Record, w: World, after: Record, campaign: Campaign, r: Status) {
    && (!w.nodesAnswer ==> r.Err? && after == before && campaign == Running)
    && (r.Ok? ==> Onward(before, w, after))
    && (IsForward(before.phase) && Calm(w) ==> r.Ok? && (after.phase != PredecessorRetired ==> campaign == Running))
    && (w.windowExhausted && Calm(w.(windowExhausted := false)) ==> r.Err? && after == before && campaign == Paused)
  }

  /** Without a replaced participant nothing is reconciled, and reconciling never retires a predecessor. */
  lemma ReconciledStays(before: Record, w: World)
    ensures !w.predecessorReplaced && !w.successorReplaced ==>
              Reconciled(before, w.predecessorReplaced, w.successorReplaced) == Ok(before)
    ensures var h := Reconciled(before, w.predecessorReplaced, w.successorReplaced);
            h.Ok? && h.value.phase == PredecessorRetired ==> before.phase == PredecessorRetired
  {
    ReconciledExactly(before, w.predecessorReplaced, w.successorReplaced);
  }

  lemma SilenceAnswers(before: Record, w: World, r: Status)
    requires !w.nodesAnswer && r.Err?
    ensures Answered(before, w, before, Running, r)
  {
  }

  lemma RefusalAnswers(before: Record, w: World, after: Record, campaign: Campaign, r: Status)
    requires w.nodesAnswer && r.Err? && (w.predecessorReplaced || w.successorReplaced || !w.renewed)
    ensures Answered(before, w, after, campaign, r)
  {
  }

  lemma WindowAnswers(before: Record, w: World, after: Record, r: Status)
    requires w.nodesAnswer && r.Err? && w.windowExhausted
    requires Reconciled(before, w.predecessorReplaced, w.successorReplaced) == Ok(after)
    ensures Answered(before, w, after, Paused, r)
  {
    ReconciledStays(before, w);
  }

  lemma WorkAnswers(before: Record, w: World, reconciled: Record, after: Record, campaign: Campaign, r: Status)
    requires w.nodesAnswer && !w.windowExhausted
    requires Reconciled(before, w.predecessorReplaced, w.successorReplaced) == Ok(reconciled)
    requires after.attempt == reconciled.attempt
    requires r.Ok? ==>
      (after.phase == reconciled.phase == PredecessorRetired || NextPhase(reconciled.phase) == Some(after.phase))
    requires IsForward(reconciled.phase) && w.phaseWorks && w.saved && w.completes ==> r.Ok?
    requires after.phase != PredecessorRetired ==> campaign == Running
    ensures Answered(before, w, after, campaign, r)
  {
    ReconciledStays(before, w);
  }

  datatype Outcome = Retired | PausedAtBoundary | CampaignOver | Refused(code: ErrorCode) | StepLimit

  class Controller {
    var campaign: Campaign
    var handoff: Option<Record>
    /** Forward transitions noted on the current handoff. */
    ghost var forward: nat
    /** The handoff as it was last saved. */
    var stored: Option<Record>
    ghost var storedForward: nat

    ghost predicate Valid()
      reads this
    {
      && (handoff.Some? ==> Bounded(Life(handoff.value, forward)))
      && (stored.Some? ==> Bounded(Life(stored.value, storedForward)))
    }

    constructor ()
      ensures Valid() && handoff == None && campaign == Running
    {
      campaign, handoff, forward, stored, storedForward := Running, None, 0, None, 0;
    }

    /** Saves the handoff, unless the world keeps it from being saved. */
    method SaveState(saved: bool) returns (r: Status)
      modifies this`stored, this`storedForward
      ensures r.Ok? == saved
      ensures if saved then stored == handoff && storedForward == forward
              else stored == old(stored) && storedForward == old(storedForward)
    {
      if !saved { return Err(Internal); }
      stored, storedForward := handoff, forward;
      return SUCCESS;
    }

    /** A controller that starts again goes on with the handoff as it was saved. */
    method ReloadState(loaded: Campaign)
      requires Valid()
      modifies this`campaign, this`handoff, this`forward
      ensures Valid() && handoff == stored && forward == storedForward && campaign == loaded
    {
      campaign, handoff, forward := loaded, stored, storedForward;
    }

    /** Notes a phase. The phase has moved even when saving it then fails. */
    method RecordPhase(to: Phase, saved: bool) returns (r: Status)
      requires Valid()
      modifies this`handoff, this`forward, this`stored, this`storedForward
      ensures old(handoff).None? ==> r == Err(NotFound) && handoff == None && forward == old(forward)
      ensures old(handoff).Some? ==>
        handoff.Some? && Life(handoff.value, forward) == Step(Life(old(handoff).value, old(forward)), Note(to))
      ensures r.Ok? ==> handoff.Some? && handoff.value.phase == to
      ensures r.Ok? && handoff != old(handoff) ==> stored == handoff && storedForward == forward
      ensures old(handoff).Some? ==>
                var valid := ValidateTransition(old(handoff).value.phase, to);
                if valid.Err? then r == valid else saved ==> r.Ok?
      ensures Valid()
    {
      if handoff.None? { return Err(NotFound); }
      var h := handoff.value;
      StepKeepsBound(Life(h, forward), Note(to));
      var valid := ValidateTransition(h.phase, to);
      if valid.Err? { return valid; }
      if h.phase == to { return SUCCESS; }
      handoff := Some(h.(phase := to));
      if IsForward(to) { forward := forward + 1; }
      r := SaveState(saved);
    }

    /** Rewinds the handoff for another attempt. It is rewound even when saving that then fails. */
    method RestartHandoff(rewindTo: Phase, saved: bool) returns (r: Status)
      requires handoff.Some?
      modifies this`handoff, this`stored, this`storedForward
      ensures handoff.Some? && r.Ok? == (saved && Restarted(old(handoff).value, rewindTo).Ok?)
      ensures var restarted := Restarted(old(handoff).value, rewindTo);
              if restarted.Err? then handoff == old(handoff) && r == Err(restarted.code)
              else handoff.value == restarted.value
      ensures r.Ok? ==> stored == handoff && storedForward == forward
      ensures r.Err? ==> stored == old(stored) && storedForward == old(storedForward)
    {
      var h := handoff.value;
      if rewindTo != NotStarted && rewindTo != Prepared { return Err(InvalidArgument); }
      if h.attempt >= MAX_RESTARTS { return Err(ResourceExhausted); }
      handoff := Some(Record(rewindTo, h.attempt + 1));
      r := SaveState(saved);
    }

    method ReconcileIncarnations(predecessorReplaced: bool, successorReplaced: bool, saved: bool) returns (r: Status)
      requires Valid() && handoff.Some?
      modifies this`handoff, this`stored, this`storedForward
      ensures Valid() && handoff.Some?
      ensures Life(handoff.value, forward) ==
              Step(Life(old(handoff).value, forward), Reconcile(predecessorReplaced, successorReplaced))
      ensures r.Ok? ==> Ok(handoff.value) == Reconciled(old(handoff).value, predecessorReplaced, successorReplaced)
      ensures var expected := Reconciled(old(handoff).value, predecessorReplaced, successorReplaced);
              if expected.Err? then r == Err(expected.code)
              else saved || expected.value == old(handoff).value ==> r.Ok?
      ensures r.Ok? ==> (handoff == old(handoff) && stored == old(stored)) || stored == handoff
    {
      StepKeepsBound(Life(handoff.value, forward), Reconcile(predecessorReplaced, successorReplaced));
      var phase := handoff.value.phase;
      if predecessorReplaced {
        if Order(phase) < Order(PredecessorFenced) {
          r := RestartHandoff(NotStarted, saved);
          return;
        }
      }
      if successorReplaced {
        if Order(phase) < Order(AuthorityTransferred) {
          var rewind := if Order(phase) >= Order(PredecessorFenced) then Prepared else NotStarted;
          r := RestartHandoff(rewind, saved);
          return;
        }
      }
      return SUCCESS;
    }

    /** The work of the current phase, and noting the next one. */
    method AdvancePhase(w: World) returns (r: Status)
      requires Valid() && handoff.Some?
      modifies this
      ensures Valid() && handoff.Some? && old(forward) <= forward <= old(forward) + 1
      ensures r.Ok? && old(handoff).value.phase != PredecessorRetired ==> forward == old(forward) + 1
      ensures r.Ok? ==>
                || handoff.value.phase == old(handoff).value.phase == PredecessorRetired
                || NextPhase(old(handoff).value.phase) == Some(handoff.value.phase)
      ensures IsForward(old(handoff).value.phase) && w.phaseWorks && w.saved && w.completes ==> r.Ok?
      ensures old(handoff).value.phase != PredecessorRetired && !w.phaseWorks ==> r.Err? && handoff == old(handoff)
      ensures handoff.value.attempt == old(handoff).value.attempt
      ensures campaign == if r.Ok? && handoff != old(handoff) && handoff.value.phase == PredecessorRetired then Ended
                          else old(campaign)
    {
      var phase := handoff.value.phase;
      StepKeepsBound(Life(handoff.value, forward), Note(phase));
      if phase == PredecessorRetired { return SUCCESS; }
      var next := NextPhase(phase);
      if next.None? { return Err(IllegalTransition); }
      if !w.phaseWorks { return Err(NotReady); }
      StepKeepsBound(Life(handoff.value, forward), Note(next.value));
      TransitionExactly(phase, next.value);
      r := RecordPhase(next.value, w.saved);
      if r.Err? { return; }
      if next.value == PredecessorRetired {
        if !w.completes { return Err(IllegalTransition); }
        campaign := Ended;
      }
    }

    /** The part of a step after a handoff exists: participants are reconciled, authority is renewed and the window is
        checked before the work of the phase. */
    method Proceed(w: World) returns (r: Status)
      requires Valid() && handoff.Some? && campaign == Running
      modifies this
      ensures Valid() && handoff.Some? && old(forward) <= forward <= old(forward) + 1
      ensures r.Ok? && old(handoff).value.phase != PredecessorRetired ==> forward == old(forward) + 1
      ensures Answered(old(handoff).value, w, handoff.value, campaign, r)
    {
      ghost var before := handoff.value;
      if !w.nodesAnswer {
        r := Err(NotReady);
        SilenceAnswers(before, w, r);
        return;
      }
      r := ReconcileIncarnations(w.predecessorReplaced, w.successorReplaced, w.restartSaved);
      ReconciledStays(before, w);
      ghost var reconciled := handoff.value;
      if r.Err? {
        RefusalAnswers(before, w, reconciled, campaign, r);
        return;
      }
      var order := Order(handoff.value.phase);
      if !w.renewed && (order < Order(PredecessorFenced) || order >= Order(AuthorityTransferred)) {
        r := Err(NotReady);
        RefusalAnswers(before, w, reconciled, campaign, r);
        return;
      }
      if w.windowExhausted {
        campaign := Paused;
        r := Err(NotReady);
        WindowAnswers(before, w, reconciled, r);
        return;
      }
      r := AdvancePhase(w);
      WorkAnswers(before, w, reconciled, handoff.value, campaign, r);
    }

    /** One step of the handoff: a success that leaves the campaign going notes exactly one forward transition. */
    method Advance(w: World) returns (r: Status)
      requires Valid()
      modifies this
      ensures Valid()
      ensures old(handoff).Some? ==> handoff.Some? && old(forward) <= forward <= old(forward) + 1
      ensures r.Ok? && old(campaign) != Ended && old(handoff).Some?
              && old(handoff).value.phase != PredecessorRetired ==>
        forward == old(forward) + 1
      ensures r.Ok? ==> old(campaign) != Paused
      ensures old(campaign) != Running ==> handoff == old(handoff) && campaign == old(campaign)
      ensures old(campaign) == Running && old(handoff).Some? ==>
                Answered(old(handoff).value, w, handoff.value, campaign, r)
      ensures old(campaign) == Running && old(handoff).None? && w.begins ==>
                handoff.Some? && Answered(FIRST, w, handoff.value, campaign, r)
    {
      if campaign == Paused { return Err(NotReady); }
      if campaign == Ended { return SUCCESS; }
      if handoff.None? {
        if !w.begins { return Err(NotReady); }
        handoff, forward := Some(FIRST), 0;
      }
      r := Proceed(w);
    }

    /** Drives the handoff until it retires or something stops it. The limit on the number of steps is never what
        stops it, whatever the world answers at each step. */
    method RunToCompletion(worlds: nat -> World) returns (r: Outcome)
      requires Valid() && handoff.Some?
      modifies this
      ensures Valid() && r != StepLimit
      ensures r == Retired ==> handoff.Some? && handoff.value.phase == PredecessorRetired
      ensures r == PausedAtBoundary ==> campaign == Paused
      ensures r == CampaignOver ==> campaign == Ended
      ensures old(campaign) == Running && IsForward(old(handoff).value.phase) && (forall k :: Calm(worlds(k))) ==>
                r == Retired
    {
      ghost var calm := campaign == Running && IsForward(handoff.value.phase) && forall k :: Calm(worlds(k));
      var step := 0;
      while step < MAX_STEPS
        invariant 0 <= step <= MAX_STEPS
        invariant Valid() && handoff.Some?
        invariant step > 0 ==> handoff.value.phase != PredecessorRetired
        invariant forward + 1 >= step
        invariant calm ==> campaign == Running && IsForward(handoff.value.phase)
      {
        if campaign == Paused { return PausedAtBoundary; }
        if campaign == Ended { return CampaignOver; }
        var advanced := Advance(worlds(step));
        if advanced.Err? { return Refused(advanced.code); }
        if handoff.value.phase == PredecessorRetired { return Retired; }
        step := step + 1;
      }
      return StepLimit;
    }
  }
}
