/** Deterministic state migration: declared steps, their forward and backward interpretation over a document, and
    exactly when going back undoes going forward. Digests are arbitrary functions supplied by the caller. */
module Migration {
  import opened Common
  import opened Documents

  const MAX_ARGUMENT_BYTES: nat := 4096

  datatype Parameter = Literal(text: Text) | NotText

  /** The declared parameters: absent, an object (its entries in key order), or some other value. */
  datatype Parameters = NoParameters | Object(entries: seq<(string, Parameter)>) | OtherValue

  /** `evidence` is the declared evidence digest, zero when the step is not sealed. */
  datatype StepSpec = StepSpec(
    id: string, from: nat, to: nat, operation: string, parameters: Parameters, deterministic: bool,
    reversible: bool, irreversibleBoundary: bool, evidence: nat)

  datatype Kind = Identity | AddField | RenameField | RemoveField | WrapValue | UnwrapValue | LowercaseField

  type Args = map<string, Text>

  datatype Resolved = Resolved(kind: Kind, args: Args)

  /** The digest a step's evidence must equal, from the step and the document it is applied to. */
  type EvidenceOf = (StepSpec, Document) -> nat

  // ---------------------------------------------------------------- resolving a declared step

  function ReadArgs(entries: seq<(string, Parameter)>): Result<Args> {
    if entries == [] then Ok(map[])
    else
      var (name, parameter) := entries[|entries| - 1];
      var before := ReadArgs(entries[..|entries| - 1]);
      if before.Err? then before
      else if parameter.NotText? then Err(Unsupported)
      else if |name| > MAX_STATE_KEY_BYTES || |parameter.text| > MAX_ARGUMENT_BYTES then Err(BoundsExceeded)
      else if name in before.value then before
      else Ok(before.value[name := parameter.text])
  }

  function KindOf(operation: string): Option<Kind> {
    if operation == "identity" then Some(Identity)
    else if operation == "add_field" then Some(AddField)
    else if operation == "rename_field" then Some(RenameField)
    else if operation == "remove_field" then Some(RemoveField)
    else if operation == "wrap_value" then Some(WrapValue)
    else if operation == "unwrap_value" then Some(UnwrapValue)
    else if operation == "lowercase_field" then Some(LowercaseField)
    else None
  }

  function Resolve(spec: StepSpec): Result<Resolved> {
    var args := match spec.parameters
      case NoParameters => Ok(map[])
      case Object(entries) => ReadArgs(entries)
      case OtherValue => Err(Unsupported);
    if args.Err? then Err(args.code)
    else if KindOf(spec.operation).None? then Err(Unsupported)
    else if !spec.deterministic then Err(Unsupported)
    else Ok(Resolved(KindOf(spec.operation).value, args.value))
  }

  // ---------------------------------------------------------------- one transformation

  predicate HasArg(args: Args, name: string) { name in args && args[name] != [] }

  const TRUE_TEXT: Text := [0x74, 0x72, 0x75, 0x65]
  const ONE_TEXT: Text := [0x31]

  predicate IsOptional(args: Args) {
    "optional" in args && (args["optional"] == TRUE_TEXT || args["optional"] == ONE_TEXT)
  }

  /** A capital letter of ASCII becomes a small one; every other byte stays. */
  function Lower(c: Byte): Byte { if 0x41 <= c <= 0x5A then c + 0x20 else c }

  function LowerAll(text: Text): Text { seq(|text|, i requires 0 <= i < |text| => Lower(text[i])) }

  function Add(args: Args, fields: Fields): Result<Fields> {
    if !HasArg(args, "key") || !HasArg(args, "value") then Err(Unsupported)
    else Put(fields, args["key"], args["value"])
  }

  function Rename(args: Args, fields: Fields): Result<Fields> {
    if !HasArg(args, "from") || !HasArg(args, "to") then Err(Unsupported)
    else if args["from"] !in fields then if IsOptional(args) then Ok(fields) else Err(MigrationFailure)
    else if args["to"] in fields then Err(MigrationFailure)
    else
      var put := Put(fields, args["to"], fields[args["from"]]);
      if put.Err? then put else Documents.Remove(put.value, args["from"])
  }

  function RemoveKey(args: Args, fields: Fields): Result<Fields> {
    if !HasArg(args, "key") then Err(Unsupported)
    else if args["key"] !in fields then if IsOptional(args) then Ok(fields) else Err(MigrationFailure)
    else Documents.Remove(fields, args["key"])
  }

  predicate HasFraming(args: Args) { HasArg(args, "key") && HasArg(args, "prefix") && HasArg(args, "suffix") }

  function Wrap(args: Args, fields: Fields): Result<Fields> {
    if !HasFraming(args) then Err(Unsupported)
    else if args["key"] !in fields then if IsOptional(args) then Ok(fields) else Err(MigrationFailure)
    else Put(fields, args["key"], args["prefix"] + fields[args["key"]] + args["suffix"])
  }

  predicate Framed(text: Text, prefix: Text, suffix: Text) {
    && |text| >= |prefix| + |suffix|
    && text[..|prefix|] == prefix && text[|text| - |suffix|..] == suffix
  }

  function Unwrap(args: Args, fields: Fields): Result<Fields> {
    if !HasFraming(args) then Err(Unsupported)
    else if args["key"] !in fields then Err(MigrationFailure)
    else
      var text := fields[args["key"]];
      if !Framed(text, args["prefix"], args["suffix"]) then Err(MigrationFailure)
      else Put(fields, args["key"], text[|args["prefix"]|..|text| - |args["suffix"]|])
  }

  function Lowercase(args: Args, fields: Fields): Result<Fields> {
    if !HasArg(args, "key") then Err(Unsupported)
    else if args["key"] !in fields then Err(MigrationFailure)
    else Put(fields, args["key"], LowerAll(fields[args["key"]]))
  }

  function Transform(r: Resolved, fields: Fields): Result<Fields> {
    match r.kind
    case Identity => Ok(fields)
    case AddField => Add(r.args, fields)
    case RenameField => Rename(r.args, fields)
    case RemoveField => RemoveKey(r.args, fields)
    case WrapValue => Wrap(r.args, fields)
    case UnwrapValue => Unwrap(r.args, fields)
    case LowercaseField => Lowercase(r.args, fields)
  }

  // ---------------------------------------------------------------- forward

  predicate EvidenceHolds(spec: StepSpec, doc: Document, evidence: EvidenceOf) {
    spec.evidence != 0 ==> evidence(spec, doc) == spec.evidence
  }

  /** A step applied to a document, without asking whether it starts from the document's schema. */
  function Advance(doc: Document, spec: StepSpec, evidence: EvidenceOf): Result<Document> {
    var r := Resolve(spec);
    if r.Err? then Err(r.code)
    else if !EvidenceHolds(spec, doc, evidence) then Err(IntegrityFailure)
    else
      var fields := Transform(r.value, doc.fields);
      if fields.Err? then Err(fields.code)
      else if spec.to == 0 then Err(InvalidArgument)
      else Ok(Document(spec.to, fields.value))
  }

  function ForwardStep(doc: Document, spec: StepSpec, evidence: EvidenceOf): Result<Document> {
    if spec.from != doc.schema then Err(MigrationFailure) else Advance(doc, spec, evidence)
  }

  function Forward(doc: Document, path: seq<StepSpec>, evidence: EvidenceOf): Result<Document>
    decreases |path|
  {
    if path == [] then Ok(doc)
    else
      var next := ForwardStep(doc, path[0], evidence);
      if next.Err? then next else Forward(next.value, path[1..], evidence)
  }

  // ---------------------------------------------------------------- backward

  /** The transformation that undoes a resolved step. A missing key argument is an exception in the runtime. */
  function Reverse(r: Resolved): Result<Resolved> {
    match r.kind
    case Identity => Ok(r)
    case AddField =>
      if "key" in r.args then Ok(Resolved(RemoveField, map["key" := r.args["key"]])) else Err(Internal)
    case RenameField =>
      if "from" in r.args && "to" in r.args
      then Ok(Resolved(RenameField, map["from" := r.args["to"], "to" := r.args["from"]]))
      else Err(Internal)
    case WrapValue => Ok(Resolved(UnwrapValue, r.args))
    case _ => Err(IrreversibleBoundary)
  }

  function BackwardStep(doc: Document, spec: StepSpec): Result<Document> {
    if spec.to != doc.schema then Err(MigrationFailure)
    else
      var r := Resolve(spec);
      if r.Err? then Err(r.code)
      else if spec.irreversibleBoundary || !spec.reversible then Err(IrreversibleBoundary)
      else
        var reverse := Reverse(r.value);
        if reverse.Err? then Err(reverse.code)
        else
          var fields := Transform(reverse.value, doc.fields);
          if fields.Err? then Err(fields.code)
          else if spec.from == 0 then Err(InvalidArgument)
          else Ok(Document(spec.from, fields.value))
  }

  /** Steps are undone last first. */
  function Backward(doc: Document, path: seq<StepSpec>): Result<Document>
    decreases |path|
  {
    if path == [] then Ok(doc)
    else
      var rest := Backward(doc, path[1..]);
      if rest.Err? then rest else BackwardStep(rest.value, path[0])
  }

  // ---------------------------------------------------------------- exactly when backward undoes forward

  /** The step can be undone from what it makes of these fields: it has an inverse, adds only an absent key, and
      was not skipped because its field is absent. */
  predicate Undoable(spec: StepSpec, fields: Fields) {
    && Resolve(spec).Ok? && spec.reversible && !spec.irreversibleBoundary
    && var r := Resolve(spec).value;
    match r.kind
    case Identity => true
    case AddField => "key" in r.args && r.args["key"] !in fields
    case RenameField => "from" in r.args && r.args["from"] in fields
    case WrapValue => "key" in r.args && r.args["key"] in fields
    case _ => false
  }

  predicate AllUndoable(doc: Document, path: seq<StepSpec>, evidence: EvidenceOf)
    decreases |path|
  {
    path != [] ==>
      && Undoable(path[0], doc.fields)
      && var next := ForwardStep(doc, path[0], evidence);
      next.Ok? && AllUndoable(next.value, path[1..], evidence)
  }

  predicate ValidDocument(doc: Document) { doc.schema > 0 && Documents.Bounded(doc.fields) }

  lemma TransformKeepsBounds(r: Resolved, fields: Fields)
    requires Documents.Bounded(fields) && Transform(r, fields).Ok?
    ensures Documents.Bounded(Transform(r, fields).value)
  {
  }

  lemma AddUndone(args: Args, fields: Fields)
    requires Add(args, fields).Ok? && args["key"] !in fields
    ensures Transform(Resolved(RemoveField, map["key" := args["key"]]), Add(args, fields).value) == Ok(fields)
  {
    assert fields[args["key"] := args["value"]] - {args["key"]} == fields;
  }

  lemma RenameUndone(args: Args, fields: Fields)
    requires Documents.Bounded(fields) && Rename(args, fields).Ok? && args["from"] in fields
    ensures Transform(Resolved(RenameField, map["from" := args["to"], "to" := args["from"]]),
                      Rename(args, fields).value) == Ok(fields)
  {
    var from, to := args["from"], args["to"];
    var there := Rename(args, fields).value;
    assert there == fields[to := fields[from]] - {from};
    assert there.Keys == fields.Keys - {from} + {to};
    assert |there.Keys| == |fields.Keys|;
    assert there[from := there[to]] - {to} == fields;
  }

  lemma WrapUndone(args: Args, fields: Fields)
    requires Documents.Bounded(fields) && Wrap(args, fields).Ok? && args["key"] in fields
    ensures Unwrap(args, Wrap(args, fields).value) == Ok(fields)
  {
    var key, prefix, suffix := args["key"], args["prefix"], args["suffix"];
    var text := prefix + fields[key] + suffix;
    assert text[..|prefix|] == prefix && text[|text| - |suffix|..] == suffix;
    assert text[|prefix|..|text| - |suffix|] == fields[key];
    assert fields[key := text][key := fields[key]] == fields;
  }

  /** An undoable step is undone exactly. */
  lemma StepUndone(doc: Document, spec: StepSpec, evidence: EvidenceOf)
    requires ValidDocument(doc) && ForwardStep(doc, spec, evidence).Ok? && Undoable(spec, doc.fields)
    ensures BackwardStep(ForwardStep(doc, spec, evidence).value, spec) == Ok(doc)
  {
    var r := Resolve(spec).value;
    match r.kind
    case Identity =>
    case AddField => AddUndone(r.args, doc.fields);
    case RenameField => RenameUndone(r.args, doc.fields);
    case WrapValue => WrapUndone(r.args, doc.fields);
  }

  lemma {:induction false} UndoableIsUndone(doc: Document, path: seq<StepSpec>, evidence: EvidenceOf)
    requires ValidDocument(doc) && Forward(doc, path, evidence).Ok? && AllUndoable(doc, path, evidence)
    ensures Backward(Forward(doc, path, evidence).value, path) == Ok(doc)
    decreases |path|
  {
    if path != [] {
      var next := ForwardStep(doc, path[0], evidence).value;
      TransformKeepsBounds(Resolve(path[0]).value, doc.fields);
      UndoableIsUndone(next, path[1..], evidence);
      StepUndone(doc, path[0], evidence);
    }
  }

  lemma AddKeys(args: Args, fields: Fields, later: Fields)
    requires Add(args, fields).Ok? && args["key"] in later
    requires (later - {args["key"]}).Keys == fields.Keys
    ensures args["key"] !in fields && later.Keys == Add(args, fields).value.Keys
  {
    assert later.Keys == (later - {args["key"]}).Keys + {args["key"]};
  }

  lemma RenameKeys(args: Args, fields: Fields, later: Fields)
    requires Rename(args, fields).Ok?
    requires args["to"] in later && args["from"] !in later
    requires (later[args["from"] := later[args["to"]]] - {args["to"]}).Keys == fields.Keys
    ensures args["from"] in fields && later.Keys == Rename(args, fields).value.Keys
  {
    var from, to := args["from"], args["to"];
    var back := later[from := later[to]] - {to};
    assert back.Keys == later.Keys + {from} - {to};
    assert from in back.Keys;
    assert Rename(args, fields).value == fields[to := fields[from]] - {from};
    assert Rename(args, fields).value.Keys == fields.Keys + {to} - {from};
  }

  lemma WrapKeys(args: Args, fields: Fields, later: Fields)
    requires Wrap(args, fields).Ok? && Unwrap(args, later).Ok?
    requires Unwrap(args, later).value.Keys == fields.Keys
    ensures args["key"] in fields && later.Keys == Wrap(args, fields).value.Keys
  {
    assert Unwrap(args, later).value.Keys == later.Keys;
    assert Wrap(args, fields).value.Keys == fields.Keys;
  }

  /** Going back over one transformation with the right keys at the end: it was undoable, and the keys were right
      before it too. */
  lemma TransformKeys(spec: StepSpec, fields: Fields, later: Fields)
    requires Resolve(spec).Ok? && spec.reversible && !spec.irreversibleBoundary
    requires Transform(Resolve(spec).value, fields).Ok? && Reverse(Resolve(spec).value).Ok?
    requires Transform(Reverse(Resolve(spec).value).value, later).Ok?
    requires Transform(Reverse(Resolve(spec).value).value, later).value.Keys == fields.Keys
    ensures Undoable(spec, fields)
    ensures later.Keys == Transform(Resolve(spec).value, fields).value.Keys
  {
    var r := Resolve(spec).value;
    match r.kind
    case Identity =>
    case AddField => AddKeys(r.args, fields, later);
    case RenameField => RenameKeys(r.args, fields, later);
    case WrapValue => WrapKeys(r.args, fields, later);
    case _ =>
  }

  lemma {:induction false} RightKeysMeanUndoable(doc: Document, path: seq<StepSpec>, evidence: EvidenceOf)
    requires Forward(doc, path, evidence).Ok?
    requires Backward(Forward(doc, path, evidence).value, path).Ok?
    requires Backward(Forward(doc, path, evidence).value, path).value.fields.Keys == doc.fields.Keys
    ensures AllUndoable(doc, path, evidence)
    decreases |path|
  {
    if path != [] {
      var next := ForwardStep(doc, path[0], evidence).value;
      var later := Backward(Forward(next, path[1..], evidence).value, path[1..]).value;
      TransformKeys(path[0], doc.fields, later.fields);
      RightKeysMeanUndoable(next, path[1..], evidence);
    }
  }

  /** For every path on which a valid document migrates forward, migrating back restores the document exactly when
      every step was undoable where it was applied. */
  lemma BackwardRestoresExactly(doc: Document, path: seq<StepSpec>, evidence: EvidenceOf)
    requires ValidDocument(doc) && Forward(doc, path, evidence).Ok?
    ensures Backward(Forward(doc, path, evidence).value, path) == Ok(doc) <==> AllUndoable(doc, path, evidence)
  {
    if AllUndoable(doc, path, evidence) {
      UndoableIsUndone(doc, path, evidence);
    } else if Backward(Forward(doc, path, evidence).value, path) == Ok(doc) {
      RightKeysMeanUndoable(doc, path, evidence);
    }
  }

  /** A reversible step that sets one key to a text. */
  function Setting(key: Text, value: Text): StepSpec {
    StepSpec("s", 1, 2, "add_field", Object([("key", Literal(key)), ("value", Literal(value))]), true, true, false, 0)
  }

  lemma SettingResolves(key: Text, value: Text)
    requires |key| <= MAX_ARGUMENT_BYTES && |value| <= MAX_ARGUMENT_BYTES
    ensures Resolve(Setting(key, value)) == Ok(Resolved(AddField, map["key" := key, "value" := value]))
  {
    var entries := Setting(key, value).parameters.entries;
    assert entries[..1] == [("key", Literal(key))] && entries[..1][..0] == [];
    assert ReadArgs(entries[..1]) == Ok(map["key" := key]);
    assert ReadArgs(entries) == Ok(map["key" := key, "value" := value]);
  }

  /** A reversible step that adds an existing key forgets the value it had: whatever key, old and new value it is, the
      way back ends with the key gone. */
  lemma OverwritingAddIsNotUndone(key: Text, was: Text, value: Text, evidence: EvidenceOf)
    requires KeyInRange(key) && 0 < |value| <= MAX_ARGUMENT_BYTES && ValueInRange(was)
    ensures var doc, there := Document(1, map[key := was]), Document(2, map[key := value]);
            && Forward(doc, [Setting(key, value)], evidence) == Ok(there)
            && Backward(there, [Setting(key, value)]) == Ok(Document(1, map[]))
  {
    var spec := Setting(key, value);
    var doc, there := Document(1, map[key := was]), Document(2, map[key := value]);
    SettingResolves(key, value);
    assert doc.fields[key := value] == there.fields;
    assert Advance(doc, spec, evidence) == Ok(there);
    assert [spec][1..] == [];
    assert there.fields - {key} == map[];
    assert BackwardStep(there, spec) == Ok(Document(1, map[]));
  }

  // ---------------------------------------------------------------- which steps resolve

  predicate Readable(entry: (string, Parameter)) {
    entry.1.Literal? && |entry.0| <= MAX_STATE_KEY_BYTES && |entry.1.text| <= MAX_ARGUMENT_BYTES
  }

  /** Parameters are read exactly when each is a text within its bounds. */
  lemma {:induction false} ReadsExactly(entries: seq<(string, Parameter)>)
    ensures ReadArgs(entries).Ok? <==> forall i :: 0 <= i < |entries| ==> Readable(entries[i])
  {
    if entries != [] {
      var front := entries[..|entries| - 1];
      ReadsExactly(front);
      assert entries == front + [entries[|entries| - 1]];
    }
  }

  /** The arguments are then those of the entries, the first of each name. */
  lemma {:induction false} ArgumentsAreTheEntries(entries: seq<(string, Parameter)>, i: nat)
    requires ReadArgs(entries).Ok? && i < |entries| && forall j :: 0 <= j < i ==> entries[j].0 != entries[i].0
    ensures entries[i].1.Literal?
    ensures entries[i].0 in ReadArgs(entries).value && ReadArgs(entries).value[entries[i].0] == entries[i].1.text
    decreases |entries|
  {
    var front := entries[..|entries| - 1];
    if i < |front| { ArgumentsAreTheEntries(front, i); } else { NoOtherArguments(front, entries[i].0); }
  }

  lemma {:induction false} NoOtherArguments(entries: seq<(string, Parameter)>, name: string)
    requires ReadArgs(entries).Ok? && forall j :: 0 <= j < |entries| ==> entries[j].0 != name
    ensures name !in ReadArgs(entries).value
    decreases |entries|
  {
    if entries != [] { NoOtherArguments(entries[..|entries| - 1], name); }
  }

  const OPERATIONS: map<string, Kind> := map[
    "identity" := Identity, "add_field" := AddField, "rename_field" := RenameField, "remove_field" := RemoveField,
    "wrap_value" := WrapValue, "unwrap_value" := UnwrapValue, "lowercase_field" := LowercaseField]

  /** A declared step resolves exactly when it is deterministic, its operation is one of the seven and its parameters
      can be read (they may be absent). */
  lemma ResolvesExactly(spec: StepSpec)
    ensures Resolve(spec).Ok? <==>
            && spec.deterministic && spec.operation in OPERATIONS && !spec.parameters.OtherValue?
            && (spec.parameters.Object? ==>
                  forall i :: 0 <= i < |spec.parameters.entries| ==> Readable(spec.parameters.entries[i]))
    ensures Resolve(spec).Ok? ==> Resolve(spec).value.kind == OPERATIONS[spec.operation]
    ensures Resolve(spec).Ok? && spec.parameters.NoParameters? ==> Resolve(spec).value.args == map[]
    ensures Resolve(spec).Ok? && spec.parameters.Object? ==>
              Ok(Resolve(spec).value.args) == ReadArgs(spec.parameters.entries)
  {
    if spec.parameters.Object? { ReadsExactly(spec.parameters.entries); }
  }

  // ---------------------------------------------------------------- what each operation does

  /** The bytes of the capital letters and of the small letters of ASCII, in the same order. */
  const CAPITALS: Text := [
    0x41, 0x42, 0x43, 0x44, 0x45, 0x46, 0x47, 0x48, 0x49, 0x4A, 0x4B, 0x4C, 0x4D,
    0x4E, 0x4F, 0x50, 0x51, 0x52, 0x53, 0x54, 0x55, 0x56, 0x57, 0x58, 0x59, 0x5A]
  const SMALLS: Text := [
    0x61, 0x62, 0x63, 0x64, 0x65, 0x66, 0x67, 0x68, 0x69, 0x6A, 0x6B, 0x6C, 0x6D,
    0x6E, 0x6F, 0x70, 0x71, 0x72, 0x73, 0x74, 0x75, 0x76, 0x77, 0x78, 0x79, 0x7A]

  lemma CapitalsInOrder(i: nat)
    requires i < |CAPITALS|
    ensures CAPITALS[i] == 0x41 + i && SMALLS[i] == 0x61 + i
  {
  }

  /** Lowercasing replaces every capital by its small letter, leaves every other byte and the length alone, and has
      nothing left to do the second time. */
  lemma LowercaseExactly(text: Text, i: nat)
    requires i < |text|
    ensures |LowerAll(text)| == |text| && LowerAll(LowerAll(text)) == LowerAll(text)
    ensures text[i] !in CAPITALS ==> LowerAll(text)[i] == text[i]
    ensures forall k :: 0 <= k < |CAPITALS| && CAPITALS[k] == text[i] ==> LowerAll(text)[i] == SMALLS[k]
    ensures LowerAll(text)[i] !in CAPITALS
  {
    forall k | 0 <= k < |CAPITALS| ensures CAPITALS[k] == 0x41 + k && SMALLS[k] == 0x61 + k { CapitalsInOrder(k); }
    var c := text[i];
    if 0x41 <= c <= 0x5A { assert CAPITALS[c - 0x41] == c; }
    assert |CAPITALS| == 26 && |SMALLS| == 26;
  }

  /** A step changes at most the fields it names: the key, or for a renaming both names. */
  predicate Names(r: Resolved, key: Text) {
    if r.kind.RenameField? then ("from" in r.args && r.args["from"] == key) || ("to" in r.args && r.args["to"] == key)
    else !r.kind.Identity? && "key" in r.args && r.args["key"] == key
  }

  lemma OtherFieldsStay(r: Resolved, fields: Fields, key: Text)
    requires Transform(r, fields).Ok? && !Names(r, key)
    ensures key in Transform(r, fields).value <==> key in fields
    ensures key in fields ==> Transform(r, fields).value[key] == fields[key]
  {
  }

  /** The argument "optional" counts when it is the text "true" or "1". */
  lemma OptionalExactly(args: Args)
    ensures IsOptional(args) <==>
            "optional" in args && (args["optional"] == [0x74, 0x72, 0x75, 0x65] || args["optional"] == [0x31])
  {
  }

  /** What the field it names becomes. A step whose field is absent is skipped when it is optional and may be
      (renaming, removing and wrapping), and refused otherwise. */
  lemma NamedFieldBecomes(r: Resolved, fields: Fields)
    requires Transform(r, fields).Ok? && !r.kind.Identity?
    ensures var after := Transform(r, fields).value;
            match r.kind
            case AddField => after == fields[r.args["key"] := r.args["value"]]
            case RenameField =>
              var from, to := r.args["from"], r.args["to"];
              if from in fields
              then to !in fields && from !in after && to in after && after[to] == fields[from]
              else after == fields && IsOptional(r.args)
            case RemoveField =>
              r.args["key"] !in after && (r.args["key"] !in fields ==> after == fields && IsOptional(r.args))
            case WrapValue =>
              var key := r.args["key"];
              if key in fields
              then key in after && after[key] == r.args["prefix"] + fields[key] + r.args["suffix"]
              else after == fields && IsOptional(r.args)
            case UnwrapValue =>
              var key := r.args["key"];
              && key in fields && key in after
              && fields[key] == r.args["prefix"] + after[key] + r.args["suffix"]
            case LowercaseField =>
              var key := r.args["key"];
              key in fields && key in after && after[key] == LowerAll(fields[key])
            case Identity => true
  {
    if r.kind.UnwrapValue? {
      var text, prefix, suffix := fields[r.args["key"]], r.args["prefix"], r.args["suffix"];
      assert text == text[..|prefix|] + text[|prefix|..|text| - |suffix|] + text[|text| - |suffix|..];
    }
  }

  /** There is room for this value under this key. */
  predicate Room(fields: Fields, key: Text, value: Text) {
    KeyInRange(key) && ValueInRange(value) && (key in fields || |fields| < MAX_STATE_FIELDS)
  }

  /** When an operation succeeds: its arguments are there, its field is (or may be absent), and the result has room. */
  lemma TransformsExactly(r: Resolved, fields: Fields)
    ensures Transform(r, fields).Ok? <==>
            match r.kind
            case Identity => true
            case AddField =>
              HasArg(r.args, "key") && HasArg(r.args, "value") && Room(fields, r.args["key"], r.args["value"])
            case RenameField =>
              && HasArg(r.args, "from") && HasArg(r.args, "to")
              && (if r.args["from"] in fields
                  then r.args["to"] !in fields && Room(fields, r.args["to"], fields[r.args["from"]])
                  else IsOptional(r.args))
            case RemoveField => HasArg(r.args, "key") && (r.args["key"] in fields || IsOptional(r.args))
            case WrapValue =>
              && HasFraming(r.args)
              && (if r.args["key"] in fields
                  then Room(fields, r.args["key"], r.args["prefix"] + fields[r.args["key"]] + r.args["suffix"])
                  else IsOptional(r.args))
            case UnwrapValue =>
              && HasFraming(r.args) && r.args["key"] in fields
              && exists inner ::
                   && fields[r.args["key"]] == r.args["prefix"] + inner + r.args["suffix"]
                   && Room(fields, r.args["key"], inner)
            case LowercaseField =>
              && HasArg(r.args, "key") && r.args["key"] in fields
              && Room(fields, r.args["key"], LowerAll(fields[r.args["key"]]))
  {
    if r.kind.UnwrapValue? && HasFraming(r.args) && r.args["key"] in fields {
      UnwrapsExactly(r.args, fields);
    }
  }

  lemma UnwrapsExactly(args: Args, fields: Fields)
    requires HasFraming(args) && args["key"] in fields
    ensures Unwrap(args, fields).Ok? <==>
            exists inner ::
              fields[args["key"]] == args["prefix"] + inner + args["suffix"] && Room(fields, args["key"], inner)
  {
    var text, prefix, suffix := fields[args["key"]], args["prefix"], args["suffix"];
    if Framed(text, prefix, suffix) {
      var inner := text[|prefix|..|text| - |suffix|];
      assert text == text[..|prefix|] + inner + text[|text| - |suffix|..];
    }
    if inner :| text == prefix + inner + suffix && Room(fields, args["key"], inner) {
      assert text[..|prefix|] == prefix && text[|text| - |suffix|..] == suffix;
      assert text[|prefix|..|text| - |suffix|] == inner;
    }
  }

  /** A step succeeds exactly when it starts at the document's schema, resolves, matches its evidence, leads to a schema
      and its operation succeeds. */
  lemma StepSucceedsExactly(doc: Document, spec: StepSpec, evidence: EvidenceOf)
    ensures ForwardStep(doc, spec, evidence).Ok? <==>
            && spec.from == doc.schema && spec.to != 0 && Resolve(spec).Ok?
            && (spec.evidence == 0 || evidence(spec, doc) == spec.evidence)
            && Transform(Resolve(spec).value, doc.fields).Ok?
    ensures ForwardStep(doc, spec, evidence).Ok? ==>
              ForwardStep(doc, spec, evidence).value
              == Document(spec.to, Transform(Resolve(spec).value, doc.fields).value)
  {
  }

  // ---------------------------------------------------------------- evidence

  /** Every step was applied to a document that matches its declared evidence. */
  ghost predicate Sealed(doc: Document, path: seq<StepSpec>, evidence: EvidenceOf) {
    forall i :: 0 <= i < |path| ==>
      && Forward(doc, path[..i], evidence).Ok?
      && (path[i].evidence == 0 || evidence(path[i], Forward(doc, path[..i], evidence).value) == path[i].evidence)
  }

  lemma {:induction false} PrefixesSucceed(doc: Document, path: seq<StepSpec>, n: nat, evidence: EvidenceOf)
    requires n <= |path| && Forward(doc, path, evidence).Ok?
    ensures Forward(doc, path[..n], evidence).Ok?
  {
    if Forward(doc, path[..n], evidence).Err? { ForwardStops(doc, path, n, evidence); }
  }

  lemma MigratedMeansSealed(doc: Document, path: seq<StepSpec>, evidence: EvidenceOf)
    requires Forward(doc, path, evidence).Ok?
    ensures Sealed(doc, path, evidence)
  {
    forall i | 0 <= i < |path|
      ensures Forward(doc, path[..i], evidence).Ok?
      ensures path[i].evidence == 0 || evidence(path[i], Forward(doc, path[..i], evidence).value) == path[i].evidence
    {
      PrefixesSucceed(doc, path, i, evidence);
      PrefixesSucceed(doc, path, i + 1, evidence);
      ForwardSplit(doc, path, i, evidence);
    }
  }

  /** The steps before `i` succeed, and step `i` starts where they end and resolves, but has other evidence than it
      declares. */
  ghost predicate SealBroken(doc: Document, path: seq<StepSpec>, i: nat, evidence: EvidenceOf)
    requires i < |path|
  {
    var before := Forward(doc, path[..i], evidence);
    && before.Ok? && path[i].from == before.value.schema && Resolve(path[i]).Ok?
    && path[i].evidence != 0 && evidence(path[i], before.value) != path[i].evidence
  }

  /** Such a step fails the whole migration as damaged. */
  lemma BrokenSealIsRefused(doc: Document, path: seq<StepSpec>, i: nat, evidence: EvidenceOf)
    requires i < |path| && SealBroken(doc, path, i, evidence)
    ensures Forward(doc, path, evidence) == Err(IntegrityFailure)
  {
    ForwardSplit(doc, path, i, evidence);
    ForwardStops(doc, path, i + 1, evidence);
  }

  lemma BreakIsFound(doc: Document, path: seq<StepSpec>, evidence: EvidenceOf)
    ensures forall i :: 0 <= i < |path| && SealBroken(doc, path, i, evidence) ==>
              Forward(doc, path, evidence) == Err(IntegrityFailure)
  {
    forall i | 0 <= i < |path| && SealBroken(doc, path, i, evidence)
      ensures Forward(doc, path, evidence) == Err(IntegrityFailure)
    {
      BrokenSealIsRefused(doc, path, i, evidence);
    }
  }

  // ---------------------------------------------------------------- the migrator

  /** What a migration reports: where it ended and which irreversible boundaries it crossed. */
  datatype Outcome = Outcome(from: nat, to: nat, crossed: seq<string>)

  function Crossed(path: seq<StepSpec>): seq<string> {
    if path == [] then []
    else Crossed(path[..|path| - 1]) + (if path[|path| - 1].irreversibleBoundary then [path[|path| - 1].id] else [])
  }

  /** One more step adds its id exactly when it is an irreversible boundary. */
  lemma CrossedNext(path: seq<StepSpec>, step: StepSpec)
    ensures Crossed(path + [step]) == Crossed(path) + (if step.irreversibleBoundary then [step.id] else [])
  {
    assert (path + [step])[..|path|] == path;
  }

  lemma Regrouped(a: seq<string>, b: seq<string>, c: seq<string>)
    ensures a + b + c == a + (b + c)
  {
  }

  /** The boundaries of a path are those of its parts, in order. */
  lemma {:induction false} CrossedInOrder(a: seq<StepSpec>, b: seq<StepSpec>)
    ensures Crossed(a + b) == Crossed(a) + Crossed(b)
    decreases |b|
  {
    if b == [] {
      assert a + b == a && Crossed(a) + [] == Crossed(a);
    } else {
      var front, last := b[..|b| - 1], b[|b| - 1];
      assert b == front + [last] && a + b == (a + front) + [last];
      CrossedNext(a + front, last);
      CrossedNext(front, last);
      CrossedInOrder(a, front);
      Regrouped(Crossed(a), Crossed(front), if last.irreversibleBoundary then [last.id] else []);
    }
  }

  lemma {:induction false} ForwardSplit(doc: Document, path: seq<StepSpec>, n: nat, evidence: EvidenceOf)
    requires n < |path| && Forward(doc, path[..n], evidence).Ok?
    ensures Forward(doc, path[..n + 1], evidence)
         == ForwardStep(Forward(doc, path[..n], evidence).value, path[n], evidence)
    decreases n
  {
    if n == 0 {
      assert path[..0] == [] && path[..1][0] == path[0] && path[..1][1..] == [];
      var one := ForwardStep(doc, path[0], evidence);
      if one.Ok? { assert Forward(one.value, [], evidence) == one; }
    } else {
      assert path[..n][0] == path[0] && path[..n][1..] == path[1..][..n - 1];
      assert path[..n + 1][0] == path[0] && path[..n + 1][1..] == path[1..][..n];
      ForwardSplit(ForwardStep(doc, path[0], evidence).value, path[1..], n - 1, evidence);
    }
  }

  lemma {:induction false} ForwardStops(doc: Document, path: seq<StepSpec>, n: nat, evidence: EvidenceOf)
    requires n <= |path| && Forward(doc, path[..n], evidence).Err?
    ensures Forward(doc, path, evidence) == Forward(doc, path[..n], evidence)
    decreases n
  {
    assert n > 0 && path[..n][0] == path[0] && path[..n][1..] == path[1..][..n - 1];
    var one := ForwardStep(doc, path[0], evidence);
    if one.Ok? { ForwardStops(one.value, path[1..], n - 1, evidence); }
  }

  /** Applies every step in order; the document comes back unchanged on failure. */
  method MigrateForward(document: Document, path: seq<StepSpec>,
                        evidence: EvidenceOf) returns (after: Document, r: Result<Outcome>)
    ensures var f := Forward(document, path, evidence);
            if f.Ok? then after == f.value && r == Ok(Outcome(document.schema, f.value.schema, Crossed(path)))
            else after == document && r == Err(f.code)
    ensures r.Ok? ==> Sealed(document, path, evidence)
    ensures forall i :: 0 <= i < |path| && SealBroken(document, path, i, evidence) ==>
              r == Err(IntegrityFailure) && after == document
  {
    BreakIsFound(document, path, evidence);
    var working := document;
    var crossed := [];
    var i := 0;
    while i < |path|
      invariant 0 <= i <= |path|
      invariant Forward(document, path[..i], evidence) == Ok(working)
      invariant crossed == Crossed(path[..i])
    {
      ForwardSplit(document, path, i, evidence);
      var step := ForwardStep(working, path[i], evidence);
      if step.Err? {
        ForwardStops(document, path, i + 1, evidence);
        return document, Err(step.code);
      }
      working := step.value;
      assert path[..i + 1][..i] == path[..i];
      if path[i].irreversibleBoundary { crossed := crossed + [path[i].id]; }
      i := i + 1;
    }
    assert path[..i] == path;
    MigratedMeansSealed(document, path, evidence);
    return working, Ok(Outcome(document.schema, working.schema, crossed));
  }

  lemma {:induction false} BackwardStops(doc: Document, path: seq<StepSpec>, n: nat)
    requires n <= |path| && Backward(doc, path[n..]).Err?
    ensures Backward(doc, path) == Backward(doc, path[n..])
    decreases n
  {
    if n == 0 {
      assert path[0..] == path;
    } else {
      assert path[n - 1..][1..] == path[n..];
      BackwardStops(doc, path, n - 1);
    }
  }

  /** Undoes the steps of a forward path from the last one back; the document comes back unchanged on failure. */
  method MigrateBackward(document: Document, path: seq<StepSpec>) returns (after: Document, r: Result<Outcome>)
    ensures var b := Backward(document, path);
            if b.Ok? then after == b.value && r == Ok(Outcome(document.schema, b.value.schema, []))
            else after == document && r == Err(b.code)
  {
    var working := document;
    var i := |path|;
    while i > 0
      invariant 0 <= i <= |path|
      invariant Backward(document, path[i..]) == Ok(working)
    {
      assert path[i - 1..][1..] == path[i..];
      var step := BackwardStep(working, path[i - 1]);
      if step.Err? {
        BackwardStops(document, path, i - 1);
        return document, Err(step.code);
      }
      working := step.value;
      i := i - 1;
    }
    assert path[0..] == path;
    return working, Ok(Outcome(document.schema, working.schema, []));
  }
}
