/** Finding a migration path among a manifest's declared steps, and what the migrator makes of it. */
module ManifestPath {
  import opened Common
  import opened Documents
  import opened Migration

  /** The first declared step that starts from a schema. */
  function StepFrom(migrations: seq<StepSpec>, schema: nat): (r: Option<StepSpec>) {
    var i := IndexWhere(migrations, (step: StepSpec) => step.from == schema);
    if i < |migrations| then Some(migrations[i]) else None
  }

  /** Following the first matching, strictly advancing step from `current` until `to`: the specification of the
      search, with no guard. */
  function Chain(migrations: seq<StepSpec>, current: nat, to: nat): (r: Option<seq<StepSpec>>)
    decreases (to - current)
  {
    if current == to then Some([])
    else if current > to then None
    else
      var step := StepFrom(migrations, current);
      if step.None? || step.value.to <= current then None
      else Prepended([step.value], Chain(migrations, step.value.to, to))
  }

  function Prepended(path: seq<StepSpec>, rest: Option<seq<StepSpec>>): Option<seq<StepSpec>> {
    if rest.None? then None else Some(path + rest.value)
  }

  lemma PrependedTwice(path: seq<StepSpec>, step: StepSpec, rest: Option<seq<StepSpec>>)
    ensures Prepended(path, Prepended([step], rest)) == Prepended(path + [step], rest)
  {
    if rest.Some? { assert path + ([step] + rest.value) == path + [step] + rest.value; }
  }

  /** Each step starts where the one before it ended. */
  predicate Contiguous(path: seq<StepSpec>, from: nat, to: nat) {
    if path == [] then from == to else path[0].from == from && Contiguous(path[1..], path[0].to, to)
  }

  predicate Advancing(path: seq<StepSpec>) { forall i :: 0 <= i < |path| ==> path[i].from < path[i].to }

  // ---------------------------------------------------------------- pigeonhole

  function Sources(path: seq<StepSpec>): set<nat> { set i | 0 <= i < |path| :: path[i].from }

  lemma SourcesAppend(path: seq<StepSpec>, step: StepSpec)
    ensures Sources(path + [step]) == Sources(path) + {step.from}
  {
    var longer := path + [step];
    assert longer[|path|] == step;
    assert forall i :: 0 <= i < |path| ==> longer[i] == path[i];
  }

  lemma {:induction false} SourcesBounded(path: seq<StepSpec>)
    ensures |Sources(path)| <= |path|
  {
    if path != [] {
      var head := path[..|path| - 1];
      SourcesBounded(head);
      assert path == head + [path[|path| - 1]];
      SourcesAppend(head, path[|path| - 1]);
    }
  }

  predicate SourcesIncrease(path: seq<StepSpec>) {
    forall i, j :: 0 <= i < j < |path| ==> path[i].from < path[j].from
  }

  lemma {:induction false} IncreasingSourcesDistinct(path: seq<StepSpec>)
    requires SourcesIncrease(path)
    ensures |Sources(path)| == |path|
  {
    if path != [] {
      var head, last := path[..|path| - 1], path[|path| - 1].from;
      IncreasingSourcesDistinct(head);
      assert path == head + [path[|path| - 1]];
      SourcesAppend(head, path[|path| - 1]);
      assert last !in Sources(head);
    }
  }

  /** Steps of increasing sources, each starting where some declared step starts, are no more than the declared. */
  lemma IncreasingFits(path: seq<StepSpec>, migrations: seq<StepSpec>)
    requires SourcesIncrease(path) && Sources(path) <= Sources(migrations)
    ensures |path| <= |migrations|
  {
    IncreasingSourcesDistinct(path);
    SourcesBounded(migrations);
    SubsetSize(Sources(path), Sources(migrations));
  }

  // ---------------------------------------------------------------- the search

  method FindStepFrom(migrations: seq<StepSpec>, schema: nat) returns (r: Option<StepSpec>)
    ensures r == StepFrom(migrations, schema)
    ensures r.Some? ==> r.value.from == schema && schema in Sources(migrations)
    ensures r.None? ==> schema !in Sources(migrations)
  {
    var i := 0;
    while i < |migrations|
      invariant 0 <= i <= |migrations|
      invariant forall j :: 0 <= j < i ==> migrations[j].from != schema
    {
      if migrations[i].from == schema {
        IndexWhereUnique(migrations, (step: StepSpec) => step.from == schema, i);
        return Some(migrations[i]);
      }
      i := i + 1;
    }
    IndexWhereUnique(migrations, (step: StepSpec) => step.from == schema, i);
    return None;
  }

  /** The path from one schema to another; empty when there is none. The guard on the number of rounds never ends
      a search: the loop always stops because it arrived or because no advancing step is left. */
  method MigrationPath(migrations: seq<StepSpec>, from: nat, to: nat) returns (path: seq<StepSpec>)
    ensures from < to ==> (path != [] <==> Chain(migrations, from, to).Some?)
    ensures path != [] ==> from < to && Chain(migrations, from, to) == Some(path)
    ensures |path| <= |migrations|
  {
    path := [];
    if from >= to { return; }
    var current, guard := from, 0;
    ghost var whole := Chain(migrations, from, to);
    assert whole.Some? ==> [] + whole.value == whole.value;
    while current != to && guard <= |migrations|
      invariant whole == Chain(migrations, from, to)
      invariant guard == |path| <= |migrations|
      invariant from <= current && (path != [] ==> from < current)
      invariant forall i :: 0 <= i < |path| ==> path[i].from < current
      invariant SourcesIncrease(path) && Sources(path) <= Sources(migrations)
      invariant current <= to ==> Prepended(path, Chain(migrations, current, to)) == whole
      invariant current > to ==> whole.None?
      decreases |migrations| - guard
    {
      var step := FindStepFrom(migrations, current);
      if step.None? || step.value.to <= current { return []; }
      SourcesAppend(path, step.value);
      PrependedTwice(path, step.value, Chain(migrations, step.value.to, to));
      path := path + [step.value];
      IncreasingFits(path, migrations);
      current := step.value.to;
      guard := guard + 1;
    }
    assert whole == Prepended(path, Some([]));
    assert path + [] == path;
  }

  /** Whether an upgrade passes a declared irreversible boundary. */
  method CrossesIrreversibleBoundary(migrations: seq<StepSpec>, from: nat, to: nat) returns (crosses: bool)
    ensures crosses <==>
            from < to && Chain(migrations, from, to).Some? && Crossed(Chain(migrations, from, to).value) != []
  {
    var path := MigrationPath(migrations, from, to);
    var i := 0;
    while i < |path|
      invariant 0 <= i <= |path|
      invariant Crossed(path[..i]) == []
    {
      assert path[..i + 1][..i] == path[..i];
      if path[i].irreversibleBoundary {
        CrossedGrows(path, i + 1);
        return true;
      }
      i := i + 1;
    }
    assert path[..i] == path;
    return false;
  }

  lemma {:induction false} CrossedGrows(path: seq<StepSpec>, n: nat)
    requires n <= |path| && Crossed(path[..n]) != []
    ensures Crossed(path) != []
    decreases |path| - n
  {
    if n == |path| {
      assert path[..n] == path;
    } else {
      assert path[..n + 1][..n] == path[..n];
      CrossedGrows(path, n + 1);
    }
  }

  // ---------------------------------------------------------------- what the migrator makes of a path

  lemma {:induction false} ChainIsContiguous(migrations: seq<StepSpec>, current: nat, to: nat)
    requires Chain(migrations, current, to).Some?
    ensures Contiguous(Chain(migrations, current, to).value, current, to)
    ensures Advancing(Chain(migrations, current, to).value)
    decreases (to - current)
  {
    if current < to {
      var step := StepFrom(migrations, current).value;
      ChainIsContiguous(migrations, step.to, to);
      var rest := Chain(migrations, step.to, to).value;
      assert ([step] + rest)[1..] == rest;
    }
  }

  /** Applying steps one after the other with no contiguity check. */
  function AdvanceAll(doc: Document, path: seq<StepSpec>, evidence: EvidenceOf): Result<Document>
    decreases |path|
  {
    if path == [] then Ok(doc)
    else
      var next := Advance(doc, path[0], evidence);
      if next.Err? then next else AdvanceAll(next.value, path[1..], evidence)
  }

  /** On a contiguous path the contiguity check never fails: the migrator does what it would do without it, and on
      success it ends at the path's last schema. */
  lemma {:induction false} ContiguousMigrates(doc: Document, path: seq<StepSpec>, to: nat, evidence: EvidenceOf)
    requires Contiguous(path, doc.schema, to)
    ensures Forward(doc, path, evidence) == AdvanceAll(doc, path, evidence)
    ensures Forward(doc, path, evidence).Ok? ==> Forward(doc, path, evidence).value.schema == to
    decreases |path|
  {
    if path != [] && ForwardStep(doc, path[0], evidence).Ok? {
      ContiguousMigrates(ForwardStep(doc, path[0], evidence).value, path[1..], to, evidence);
    }
  }

  /** The same of any path the search returns. */
  lemma FoundPathMigrates(migrations: seq<StepSpec>, doc: Document, to: nat, evidence: EvidenceOf)
    requires Chain(migrations, doc.schema, to).Some?
    ensures var path := Chain(migrations, doc.schema, to).value;
            && Forward(doc, path, evidence) == AdvanceAll(doc, path, evidence)
            && (Forward(doc, path, evidence).Ok? ==> Forward(doc, path, evidence).value.schema == to)
  {
    ChainIsContiguous(migrations, doc.schema, to);
    ContiguousMigrates(doc, Chain(migrations, doc.schema, to).value, to, evidence);
  }

  // ---------------------------------------------------------------- the declared list against the path

  lemma {:induction false} MigratedMeansContiguous(doc: Document, path: seq<StepSpec>, evidence: EvidenceOf)
    requires Forward(doc, path, evidence).Ok?
    ensures Contiguous(path, doc.schema, Forward(doc, path, evidence).value.schema)
    decreases |path|
  {
    if path != [] { MigratedMeansContiguous(ForwardStep(doc, path[0], evidence).value, path[1..], evidence); }
  }

  lemma {:induction false} ContiguousSourcesIncrease(path: seq<StepSpec>, from: nat, to: nat)
    requires Contiguous(path, from, to) && Advancing(path)
    ensures forall i :: 0 <= i < |path| ==> path[i].from >= from
    ensures SourcesIncrease(path) && from <= to && (path != [] ==> from < to)
    decreases |path|
  {
    if path != [] {
      var rest := path[1..];
      assert forall i :: 0 <= i < |rest| ==> rest[i] == path[i + 1];
      ContiguousSourcesIncrease(rest, path[0].to, to);
      forall i, j | 0 <= i < j < |path| ensures path[i].from < path[j].from {
        assert path[j] == rest[j - 1];
        if i > 0 { assert path[i] == rest[i - 1]; }
      }
      forall i | 0 <= i < |path| ensures path[i].from >= from {
        if i > 0 { assert path[i] == rest[i - 1]; }
      }
    }
  }

  lemma FoundInOrder(migrations: seq<StepSpec>, k: nat)
    requires k < |migrations| && SourcesIncrease(migrations)
    ensures StepFrom(migrations, migrations[k].from) == Some(migrations[k])
  {
    var schema := migrations[k].from;
    IndexWhereUnique(migrations, (step: StepSpec) => step.from == schema, k);
  }

  lemma ChainStep(migrations: seq<StepSpec>, current: nat, to: nat, step: StepSpec, rest: seq<StepSpec>)
    requires current < to && StepFrom(migrations, current) == Some(step) && current < step.to
    requires Chain(migrations, step.to, to) == Some(rest)
    ensures Chain(migrations, current, to) == Some([step] + rest)
  {
  }

  lemma {:induction false} SuffixIsChain(migrations: seq<StepSpec>, k: nat, current: nat, to: nat)
    requires k <= |migrations| && SourcesIncrease(migrations) && Advancing(migrations)
    requires Contiguous(migrations[k..], current, to)
    ensures Chain(migrations, current, to) == Some(migrations[k..])
    decreases |migrations| - k
  {
    if k < |migrations| {
      var step, rest := migrations[k], migrations[k + 1..];
      assert migrations[k..] == [step] + rest;
      assert Contiguous(rest, step.to, to) && step.from == current;
      FoundInOrder(migrations, k);
      ContiguousSourcesIncrease(rest, step.to, to);
      SuffixIsChain(migrations, k + 1, step.to, to);
      ChainStep(migrations, current, to, step, rest);
    }
  }

  /** A handoff migrates over the manifest's whole declared list, not over the path that was validated. For
      strictly advancing steps that list is the path exactly when it is contiguous in its declared order. */
  lemma DeclaredListIsPathExactly(migrations: seq<StepSpec>, from: nat, to: nat)
    requires Advancing(migrations)
    ensures Chain(migrations, from, to) == Some(migrations) <==> Contiguous(migrations, from, to)
  {
    if Contiguous(migrations, from, to) {
      ContiguousSourcesIncrease(migrations, from, to);
      assert migrations[0..] == migrations;
      SuffixIsChain(migrations, 0, from, to);
    } else if Chain(migrations, from, to).Some? {
      ChainIsContiguous(migrations, from, to);
    }
  }

  /** So a migration over the declared list that does reach the target schema ran exactly the validated path. */
  lemma ArrivalMeansPath(migrations: seq<StepSpec>, doc: Document, evidence: EvidenceOf)
    requires Advancing(migrations) && Forward(doc, migrations, evidence).Ok?
    ensures Chain(migrations, doc.schema, Forward(doc, migrations, evidence).value.schema) == Some(migrations)
  {
    MigratedMeansContiguous(doc, migrations, evidence);
    DeclaredListIsPathExactly(migrations, doc.schema, Forward(doc, migrations, evidence).value.schema);
  }

  /** Two steps declared out of order: a path exists, and migrating over the declared list is refused. */
  lemma OutOfOrderIsRefused(first: StepSpec, second: StepSpec, doc: Document, evidence: EvidenceOf)
    requires first.from == doc.schema && first.to == second.from && first.from < second.from < second.to
    ensures Chain([second, first], doc.schema, second.to) == Some([first, second])
    ensures Forward(doc, [second, first], evidence) == Err(MigrationFailure)
  {
    var migrations := [second, first];
    IndexWhereUnique(migrations, (s: StepSpec) => s.from == first.from, 1);
    IndexWhereUnique(migrations, (s: StepSpec) => s.from == second.from, 0);
    assert Chain(migrations, second.to, second.to) == Some([]);
    assert Chain(migrations, second.from, second.to) == Some([second] + []);
    assert [first] + ([second] + []) == [first, second];
  }
}
