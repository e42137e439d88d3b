/** Protocol negotiation between two participants and among a group. */
module Negotiation {
  import opened Common

  datatype Version = Version(major: nat, minor: nat)

  type FeatureSet = set<nat>

  /** What a participant presents. `identified`: its component, incarnation and software are all given. */
  datatype Hello = Hello(component: nat, identified: bool, protocol: Version, schema: nat, features: FeatureSet)

  predicate IsValid(h: Hello) { h.identified && h.protocol.major != 0 && h.schema != 0 }

  /** The manifest's side: accepted versions, features, schemas and the components that must take part. */
  datatype Terms = Terms(
    accepted: seq<Version>, allowed: FeatureSet, required: FeatureSet, schemas: seq<nat>,
    requiredParticipants: seq<nat>)

  datatype Mode = Refused | Restricted | Compatible

  datatype Negotiated = Negotiated(mode: Mode, effective: Version,
    enabled: FeatureSet, disabled: FeatureSet, missing: FeatureSet)

  /** Every refusal but the one for missing required features. */
  const REFUSAL: Negotiated := Negotiated(Refused, Version(0, 0), {}, {}, {})

  function Lower(a: Version, b: Version): Version { Version(a.major, if b.minor < a.minor then b.minor else a.minor) }

  // ---------------------------------------------------------------- two parties

  function Negotiate(local: Hello, peer: Hello, terms: Terms): Negotiated {
    if !IsValid(local) || !IsValid(peer) then REFUSAL
    else if local.protocol.major != peer.protocol.major then REFUSAL
    else
      var effective := Lower(local.protocol, peer.protocol);
      if effective !in terms.accepted then REFUSAL
      else if local.schema !in terms.schemas || peer.schema !in terms.schemas then REFUSAL
      else
        var common := local.features * peer.features * terms.allowed;
        var missing := terms.required - common;
        if missing != {} then REFUSAL.(missing := missing)
        else
          var mode := if effective == local.protocol && effective == peer.protocol then Compatible else Restricted;
          Negotiated(mode, effective, common, terms.allowed - common, {})
  }

  // ---------------------------------------------------------------- a group: what is wanted, without any order

  predicate Admissible(hellos: set<Hello>, terms: Terms) {
    && hellos != {}
    && (forall c :: c in terms.requiredParticipants ==> exists h :: h in hellos && h.component == c)
    && (forall h :: h in hellos ==> IsValid(h) && h.schema in terms.schemas)
    && (forall g, h :: g in hellos && h in hellos ==> g.protocol.major == h.protocol.major)
  }

  /** The version every participant can use: some participant's own, and the lowest. */
  predicate IsLowest(hellos: set<Hello>, v: Version) {
    && (exists h :: h in hellos && h.protocol == v)
    && (forall h :: h in hellos ==> v.minor <= h.protocol.minor)
  }

  function Offered(hellos: set<Hello>, allowed: FeatureSet): FeatureSet {
    set f | f in allowed && forall h :: h in hellos ==> f in h.features
  }

  function OutcomeAt(hellos: set<Hello>, terms: Terms, v: Version): Negotiated {
    var enabled := Offered(hellos, terms.allowed);
    var missing := terms.required - enabled;
    if v !in terms.accepted then REFUSAL
    else if missing != {} then REFUSAL.(missing := missing)
    else
      Negotiated(if forall h :: h in hellos ==> h.protocol == v then Compatible else Restricted,
                 v, enabled, terms.allowed - enabled, {})
  }

  /** What a negotiation among these participants must come to. */
  ghost predicate Agrees(hellos: set<Hello>, terms: Terms, r: Negotiated) {
    && (!Admissible(hellos, terms) ==> r == REFUSAL)
    && (Admissible(hellos, terms) ==> forall v :: IsLowest(hellos, v) ==> r == OutcomeAt(hellos, terms, v))
  }

  // ---------------------------------------------------------------- a group: participants in order

  function Hellos(participants: seq<Hello>): set<Hello> { set h | h in participants }

  predicate Present(participants: seq<Hello>,
                    component: nat) { exists h :: h in participants && h.component == component }

  function LowestVersion(participants: seq<Hello>): Version
    requires participants != []
  {
    if |participants| == 1 then participants[0].protocol
    else Lower(LowestVersion(participants[..|participants| - 1]), participants[|participants| - 1].protocol)
  }

  function CommonFeatures(participants: seq<Hello>): FeatureSet
    requires participants != []
  {
    if |participants| == 1 then participants[0].features
    else CommonFeatures(participants[..|participants| - 1]) * participants[|participants| - 1].features
  }

  predicate Acceptable(first: Hello, terms: Terms, h: Hello) {
    IsValid(h) && h.protocol.major == first.protocol.major && h.schema in terms.schemas
  }

  predicate AllAcceptable(participants: seq<Hello>, terms: Terms) {
    participants != [] && forall i :: 0 <= i < |participants| ==> Acceptable(participants[0], terms, participants[i])
  }

  predicate AllPresent(participants: seq<Hello>, required: seq<nat>) {
    forall i :: 0 <= i < |required| ==> Present(participants, required[i])
  }

  /** The outcome once every participant is acceptable. */
  function Settle(effective: Version, common: FeatureSet, terms: Terms, atEffective: bool): Negotiated {
    var enabled := common * terms.allowed;
    var missing := terms.required - enabled;
    if effective !in terms.accepted then REFUSAL
    else if missing != {} then REFUSAL.(missing := missing)
    else Negotiated(if atEffective then Compatible else Restricted, effective, enabled, terms.allowed - enabled, {})
  }

  predicate AllAt(participants: seq<Hello>, v: Version) {
    forall i :: 0 <= i < |participants| ==> participants[i].protocol == v
  }

  function Group(participants: seq<Hello>, terms: Terms): Negotiated {
    if participants == [] || !AllPresent(participants, terms.requiredParticipants) then REFUSAL
    else if !AllAcceptable(participants, terms) then REFUSAL
    else
      var effective := LowestVersion(participants);
      Settle(effective, CommonFeatures(participants), terms, AllAt(participants, effective))
  }

  // ---------------------------------------------------------------- the loops

  method IsPresent(participants: seq<Hello>, component: nat) returns (present: bool)
    ensures present == Present(participants, component)
  {
    var i := 0;
    while i < |participants|
      invariant 0 <= i <= |participants|
      invariant forall j :: 0 <= j < i ==> participants[j].component != component
    {
      if participants[i].component == component { return true; }
      i := i + 1;
    }
    return false;
  }

  method RequiredArePresent(participants: seq<Hello>, required: seq<nat>) returns (present: bool)
    ensures present == AllPresent(participants, required)
  {
    present := true;
    var i := 0;
    while i < |required|
      invariant 0 <= i <= |required|
      invariant present == AllPresent(participants, required[..i])
    {
      var one := IsPresent(participants, required[i]);
      assert required[..i + 1][..i] == required[..i];
      assert AllPresent(participants, required[..i + 1]) == (AllPresent(participants, required[..i]) && one) by {
        AllPresentOneMore(participants, required, i);
      }
      if !one { present := false; }
      i := i + 1;
    }
    assert required[..i] == required;
  }

  lemma AllPresentOneMore(participants: seq<Hello>, required: seq<nat>, i: nat)
    requires i < |required|
    ensures AllPresent(participants, required[..i + 1]) <==>
              AllPresent(participants, required[..i]) && Present(participants, required[i])
  {
    assert required[..i + 1] == required[..i] + [required[i]];
    assert required[..i + 1][i] == required[i];
  }

  method NegotiateGroup(participants: seq<Hello>, terms: Terms) returns (r: Negotiated)
    ensures r == Group(participants, terms)
  {
    if participants == [] { return REFUSAL; }
    var present := RequiredArePresent(participants, terms.requiredParticipants);
    if !present { return REFUSAL; }
    var effective, common, refusals := participants[0].protocol, participants[0].features, 0;
    var i := 0;
    while i < |participants|
      invariant 0 <= i <= |participants|
      invariant effective.major == participants[0].protocol.major
      invariant i == 0 ==> effective == participants[0].protocol && common == participants[0].features && refusals == 0
      invariant i > 0 ==> effective == LowestVersion(participants[..i]) && common == CommonFeatures(participants[..i])
      invariant refusals == 0 <==> forall j :: 0 <= j < i ==> Acceptable(participants[0], terms, participants[j])
    {
      var hello := participants[i];
      if !IsValid(hello) { return REFUSAL; }
      if effective.major != hello.protocol.major { return REFUSAL; }
      effective := Lower(effective, hello.protocol);
      common := common * hello.features;
      assert participants[..i + 1][..i] == participants[..i];
      if hello.schema !in terms.schemas { refusals := refusals + 1; }
      i := i + 1;
    }
    if refusals != 0 { return REFUSAL; }
    assert participants[..i] == participants;
    if effective !in terms.accepted { return REFUSAL; }
    var enabled := common * terms.allowed;
    var missing := terms.required - enabled;
    if missing != {} { return REFUSAL.(missing := missing); }
    var atEffective, k := true, 0;
    while k < |participants| && atEffective
      invariant 0 <= k <= |participants|
      invariant atEffective <==> forall j :: 0 <= j < k ==> participants[j].protocol == effective
    {
      if participants[k].protocol != effective { atEffective := false; }
      k := k + 1;
    }
    return Negotiated(if atEffective then Compatible else Restricted, effective, enabled, terms.allowed - enabled, {});
  }

  // ---------------------------------------------------------------- the order of participants does not matter

  lemma {:induction false} LowestVersionIsLowest(participants: seq<Hello>)
    requires participants != []
    requires forall i :: 0 <= i < |participants| ==> participants[i].protocol.major == participants[0].protocol.major
    ensures IsLowest(Hellos(participants), LowestVersion(participants))
  {
    var last := participants[|participants| - 1];
    if |participants| > 1 {
      var head := participants[..|participants| - 1];
      LowestVersionIsLowest(head);
      assert Hellos(participants) == Hellos(head) + {last};
    } else {
      assert Hellos(participants) == {last};
    }
  }

  lemma {:induction false} CommonIsOfferedByAll(participants: seq<Hello>, allowed: FeatureSet)
    requires participants != []
    ensures CommonFeatures(participants) * allowed == Offered(Hellos(participants), allowed)
  {
    var last := participants[|participants| - 1];
    if |participants| > 1 {
      var head := participants[..|participants| - 1];
      CommonIsOfferedByAll(head, allowed);
      assert Hellos(participants) == Hellos(head) + {last};
      assert Offered(Hellos(participants), allowed) == Offered(Hellos(head), allowed) * last.features;
    } else {
      assert Hellos(participants) == {last};
    }
  }

  lemma LowestIsUnique(hellos: set<Hello>, v: Version, w: Version)
    requires IsLowest(hellos, v) && IsLowest(hellos, w)
    requires forall g, h :: g in hellos && h in hellos ==> g.protocol.major == h.protocol.major
    ensures v == w
  {
  }

  lemma PresentInOrder(participants: seq<Hello>, required: seq<nat>)
    ensures AllPresent(participants, required)
       <==> forall c :: c in required ==> exists h :: h in Hellos(participants) && h.component == c
  {
    if AllPresent(participants, required) {
      forall c | c in required ensures exists h :: h in Hellos(participants) && h.component == c {
        var i :| 0 <= i < |required| && required[i] == c;
        var h :| h in participants && h.component == c;
        assert h in Hellos(participants);
      }
    } else {
      var i :| 0 <= i < |required| && !Present(participants, required[i]);
      assert required[i] in required;
      assert forall h :: h in Hellos(participants) ==> h in participants;
    }
  }

  lemma AcceptableInOrder(participants: seq<Hello>, terms: Terms)
    requires participants != []
    ensures AllAcceptable(participants, terms)
       <==> && (forall h :: h in Hellos(participants) ==> IsValid(h) && h.schema in terms.schemas)
            && (forall g, h :: g in Hellos(participants) && h in Hellos(participants) ==>
                  g.protocol.major == h.protocol.major)
  {
    if AllAcceptable(participants, terms) {
      assert forall h :: h in Hellos(participants) ==> Acceptable(participants[0], terms, h);
    } else {
      var i :| 0 <= i < |participants| && !Acceptable(participants[0], terms, participants[i]);
      assert participants[i] in Hellos(participants) && participants[0] in Hellos(participants);
    }
  }

  lemma AdmissibleInOrder(participants: seq<Hello>, terms: Terms)
    ensures Admissible(Hellos(participants), terms)
       <==> (participants != [] && AllPresent(participants, terms.requiredParticipants)
             && AllAcceptable(participants, terms))
  {
    if participants == [] {
      assert Hellos(participants) == {};
    } else {
      assert participants[0] in Hellos(participants);
      PresentInOrder(participants, terms.requiredParticipants);
      AcceptableInOrder(participants, terms);
    }
  }

  lemma SettledIsOutcome(participants: seq<Hello>, terms: Terms, v: Version)
    requires participants != []
    ensures Settle(v, CommonFeatures(participants), terms, AllAt(participants, v))
         == OutcomeAt(Hellos(participants), terms, v)
  {
    CommonIsOfferedByAll(participants, terms.allowed);
    assert AllAt(participants, v) <==> forall h :: h in Hellos(participants) ==> h.protocol == v;
  }

  /** The group negotiation does what is wanted of the set of its participants. */
  lemma GroupAgrees(participants: seq<Hello>, terms: Terms)
    ensures Agrees(Hellos(participants), terms, Group(participants, terms))
  {
    AdmissibleInOrder(participants, terms);
    var hellos := Hellos(participants);
    if Admissible(hellos, terms) {
      var effective := LowestVersion(participants);
      LowestVersionIsLowest(participants);
      SettledIsOutcome(participants, terms, effective);
      forall v | IsLowest(hellos, v) ensures v == effective { LowestIsUnique(hellos, v, effective); }
    }
  }

  /** What is wanted determines the outcome: two negotiations with the same participants, in any order and however
      often each presents itself, come to the same. */
  lemma SameParticipantsSameOutcome(p: seq<Hello>, q: seq<Hello>, terms: Terms)
    requires Hellos(p) == Hellos(q)
    ensures Group(p, terms) == Group(q, terms)
  {
    GroupAgrees(p, terms);
    GroupAgrees(q, terms);
    if Admissible(Hellos(p), terms) {
      AdmissibleInOrder(p, terms);
      LowestVersionIsLowest(p);
    }
  }

  /** In particular the outcome does not change under a permutation of the participants. */
  lemma PermutationInvariant(p: seq<Hello>, q: seq<Hello>, terms: Terms)
    requires multiset(p) == multiset(q)
    ensures Group(p, terms) == Group(q, terms)
  {
    forall h ensures h in p <==> h in q { assert h in p <==> h in multiset(p); }
    assert Hellos(p) == Hellos(q);
    SameParticipantsSameOutcome(p, q, terms);
  }

  /** On two participants, when nobody in particular must take part, the two negotiations agree. */
  lemma TwoPartiesAgree(a: Hello, b: Hello, terms: Terms)
    requires terms.requiredParticipants == []
    ensures Negotiate(a, b, terms) == Group([a, b], terms)
  {
    var both := [a, b];
    assert both[..1] == [a];
    assert LowestVersion(both) == Lower(a.protocol, b.protocol);
    assert CommonFeatures(both) == a.features * b.features;
    assert AllAcceptable(both, terms) <==> Acceptable(a, terms, both[0]) && Acceptable(a, terms, both[1]);
    assert AllAt(both, Lower(a.protocol, b.protocol)) <==>
           both[0].protocol == Lower(a.protocol, b.protocol) == both[1].protocol;
  }

  /** A usable outcome enables exactly the allowed features that every participant offers, all required ones among
      them, at the lowest version present; it is compatible exactly when every participant is at that version. */
  lemma UsableOutcomeExactly(participants: seq<Hello>, terms: Terms)
    requires Group(participants, terms).mode != Refused
    ensures var r := Group(participants, terms);
            var hellos := Hellos(participants);
            && r.enabled == Offered(hellos, terms.allowed) && r.disabled == terms.allowed - r.enabled
            && terms.required <= r.enabled && r.missing == {}
            && IsLowest(hellos, r.effective) && r.effective in terms.accepted
            && (r.mode == Compatible <==> forall h :: h in hellos ==> h.protocol == r.effective)
  {
    LowestVersionIsLowest(participants);
    SettledIsOutcome(participants, terms, LowestVersion(participants));
    NothingMissing(terms.required, Offered(Hellos(participants), terms.allowed));
  }

  lemma NothingMissing(required: FeatureSet, enabled: FeatureSet)
    ensures required - enabled == {} <==> required <= enabled
  {
    if required - enabled == {} {
      forall f | f in required ensures f in enabled { assert f !in required - enabled; }
    }
  }

  /** A negotiation is usable exactly when the participants are admissible, their lowest version is accepted, and
      every required feature is allowed and offered by all. */
  lemma UsableExactly(participants: seq<Hello>, terms: Terms)
    ensures Group(participants, terms).mode != Refused
       <==> && Admissible(Hellos(participants), terms)
            && (exists v :: IsLowest(Hellos(participants), v) && v in terms.accepted)
            && terms.required <= Offered(Hellos(participants), terms.allowed)
  {
    AdmissibleInOrder(participants, terms);
    GroupAgrees(participants, terms);
    if Admissible(Hellos(participants), terms) {
      LowestVersionIsLowest(participants);
      SettledIsOutcome(participants, terms, LowestVersion(participants));
      NothingMissing(terms.required, Offered(Hellos(participants), terms.allowed));
      forall v | IsLowest(Hellos(participants), v) ensures v == LowestVersion(participants) {
        LowestIsUnique(Hellos(participants), v, LowestVersion(participants));
      }
    }
  }
}
