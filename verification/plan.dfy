/** The schema-change vocabulary and the plan validator: every step is checked structurally, then
    against a shadow copy of the schema, then applied to the shadow. */
module Plan {
  import opened Wrappers
  import opened Text
  import opened Keyed
  import opened Runs
  import opened SchemaDocument

  datatype FieldSpec = FieldSpec(name: string, ty: string, nullable: bool, editable: bool)

  datatype OnDelete = Restrict | Cascade | SetNull

  datatype Primitive =
    | AddModel(name: string, table: string, fields: seq<FieldSpec>)
    | RemoveModel(name: string)
    | RenameModel(from: string, to: string)
    | AddField(model: string, spec: FieldSpec)
    | RemoveField(model: string, field: string)
    | RenameField(model: string, from: string, to: string)
    | ChangeFieldType(model: string, field: string, new_type: string)
    | ChangeFieldNullability(model: string, field: string, nullable: bool)
    | AddRelation(from: string, kind: RelationKind, to: string, via: string,
                  required: bool, on_delete: OnDelete)
    | RemoveRelation(from: string, via: string)
    | UpdateAdmin(model: string, field: string, attr: string, json: string)
    | CreateMigration(name: string, sql: string)
  {
    predicate IsDeveloperOnly() { CreateMigration? }
  }

  /** The labels the source passes as static strings. */
  datatype Label =
    | ModelLabel | TableLabel | FieldLabel | FromLabel | ToLabel | ViaLabel | AttrLabel
    | MigrationLabel | SqlLabel | RelationLabel

  /** The subject of an error: a name, or the source's rendering `owner.member` kept as a pair. */
  datatype Subject = Plain(name: string) | Dotted(owner: string, member: string)

  datatype PrimitiveError =
    | EmptyIdentifier(which: Label)
    | UnknownType(model: string, field: string, ty: string)
    | DuplicateFieldInAddModel(model: string, field: string)
    | AlreadyExists(what: Label, name: Subject)
    | NotFound(what: Label, name: Subject)
    | UnknownRelationTarget(from: string, to: string)
    | UnknownAdminAttribute(attr: string)
    | NoOpRename(what: Label, name: Subject)
    | DeveloperOnlyNotAllowedInPlan
    | InStep(step: nat, inner: PrimitiveError)

  type Check = Result<(), PrimitiveError>

  const ALLOWED_ADMIN_ATTRS: seq<string> := ["searchable", "editable", "nullable"]

  // ----- structural validation -----

  predicate Blank(s: string) { Trim(s) == "" }

  function RequireNonempty(s: string, which: Label): Check {
    if Blank(s) then Err(PrimitiveError.EmptyIdentifier(which)) else Ok(())
  }

  function ValidateFieldSpec(model: string, f: FieldSpec): Check {
    var _ :- RequireNonempty(f.name, FieldLabel);
    if !ValidType(f.ty) then Err(UnknownType(model, f.name, f.ty)) else Ok(())
  }

  /** The verdict on the first `n` fields of an `add_model` payload. */
  function ValidateSpecs(model: string, fields: seq<FieldSpec>, n: nat): Check
    requires n <= |fields|
  {
    if n == 0 then Ok(()) else
      var _ :- ValidateSpecs(model, fields, n - 1);
      ValidateNthSpec(model, fields, n - 1)
  }

  function ValidateNthSpec(model: string, fields: seq<FieldSpec>, i: nat): Check
    requires i < |fields|
  {
    var _ :- ValidateFieldSpec(model, fields[i]);
    if exists j :: 0 <= j < i && fields[j].name == fields[i].name
    then Err(DuplicateFieldInAddModel(model, fields[i].name)) else Ok(())
  }

  /** `validate_primitive`. */
  function ValidatePrimitive(p: Primitive): Check {
    match p
    case AddModel(name, table, fields) =>
      var _ :- RequireNonempty(name, ModelLabel);
      var _ :- RequireNonempty(table, TableLabel);
      ValidateSpecs(name, fields, |fields|)
    case RemoveModel(name) => RequireNonempty(name, ModelLabel)
    case AddField(model, spec) =>
      var _ :- RequireNonempty(model, ModelLabel);
      ValidateFieldSpec(model, spec)
    case RemoveField(model, field) =>
      var _ :- RequireNonempty(model, ModelLabel);
      RequireNonempty(field, FieldLabel)
    case RenameModel(from, to) =>
      var _ :- RequireNonempty(from, FromLabel);
      var _ :- RequireNonempty(to, ToLabel);
      if from == to then Err(NoOpRename(ModelLabel, Plain(from))) else Ok(())
    case RenameField(model, from, to) =>
      var _ :- RequireNonempty(model, ModelLabel);
      var _ :- RequireNonempty(from, FromLabel);
      var _ :- RequireNonempty(to, ToLabel);
      if from == to then Err(NoOpRename(FieldLabel, Dotted(model, from))) else Ok(())
    case ChangeFieldType(model, field, new_type) =>
      var _ :- RequireNonempty(model, ModelLabel);
      var _ :- RequireNonempty(field, FieldLabel);
      if !ValidType(new_type) then Err(UnknownType(model, field, new_type)) else Ok(())
    case ChangeFieldNullability(model, field, _) =>
      var _ :- RequireNonempty(model, ModelLabel);
      RequireNonempty(field, FieldLabel)
    case AddRelation(from, _, to, via, _, _) =>
      var _ :- RequireNonempty(from, FromLabel);
      var _ :- RequireNonempty(to, ToLabel);
      RequireNonempty(via, ViaLabel)
    case RemoveRelation(from, via) =>
      var _ :- RequireNonempty(from, FromLabel);
      RequireNonempty(via, ViaLabel)
    case UpdateAdmin(model, field, attr, _) =>
      var _ :- RequireNonempty(model, ModelLabel);
      var _ :- RequireNonempty(field, FieldLabel);
      var _ :- RequireNonempty(attr, AttrLabel);
      if attr !in ALLOWED_ADMIN_ATTRS then Err(UnknownAdminAttribute(attr)) else Ok(())
    case CreateMigration(name, sql) =>
      var _ :- RequireNonempty(name, MigrationLabel);
      RequireNonempty(sql, SqlLabel)
  }

  /** The one arm of `validate_primitive` that loops: the fields of an `add_model` payload against
      the set of names seen so far. */
  method ValidateAddModelFields(model: string, fields: seq<FieldSpec>) returns (r: Check)
    ensures r == ValidateSpecs(model, fields, |fields|)
  {
    hide ValidateFieldSpec, ValidateNthSpec;
    var seen: set<string> := {};
    for i := 0 to |fields|
      invariant ValidateSpecs(model, fields, i) == Ok(())
      invariant seen == set j | 0 <= j < i :: fields[j].name
    {
      SpecsPrefix(model, fields, i + 1, |fields|);
      r := ValidateFieldSpec(model, fields[i]);
      if r.Ok? && fields[i].name in seen {
        r := Err(DuplicateFieldInAddModel(model, fields[i].name));
      }
      NthVerdict(model, fields, i, seen);
      if r.Err? { return; }
      seen := seen + {fields[i].name};
    }
    return Ok(());
  }

  lemma NthVerdict(model: string, fields: seq<FieldSpec>, i: nat, seen: set<string>)
    requires i < |fields| && seen == set j | 0 <= j < i :: fields[j].name
    ensures ValidateNthSpec(model, fields, i) == (
      var r := ValidateFieldSpec(model, fields[i]);
      if r.Ok? && fields[i].name in seen then Err(DuplicateFieldInAddModel(model, fields[i].name)) else r)
    ensures ValidateFieldSpec(model, fields[i]).Ok? ==> ValidateFieldSpec(model, fields[i]) == Ok(())
  {
  }

  lemma {:induction false} SpecsPrefix(model: string, fields: seq<FieldSpec>, i: nat, n: nat)
    requires i <= n <= |fields|
    ensures ValidateSpecs(model, fields, i).Err? ==>
      ValidateSpecs(model, fields, n) == ValidateSpecs(model, fields, i)
  {
    if i < n { SpecsPrefix(model, fields, i, n - 1); }
  }

  function SpecName(f: FieldSpec): string { f.name }

  ghost predicate GoodSpec(f: FieldSpec) { !Blank(f.name) && ValidType(f.ty) }

  /** What the structural check demands, as one condition a payload. */
  ghost predicate WellFormed(p: Primitive) {
    match p
    case AddModel(name, table, fields) =>
      !Blank(name) && !Blank(table) && (forall f :: f in fields ==> GoodSpec(f)) && Distinct(fields, SpecName)
    case RemoveModel(name) => !Blank(name)
    case AddField(model, spec) => !Blank(model) && GoodSpec(spec)
    case RemoveField(model, field) => !Blank(model) && !Blank(field)
    case RenameModel(from, to) => !Blank(from) && !Blank(to) && from != to
    case RenameField(model, from, to) => !Blank(model) && !Blank(from) && !Blank(to) && from != to
    case ChangeFieldType(model, field, ty) => !Blank(model) && !Blank(field) && ValidType(ty)
    case ChangeFieldNullability(model, field, _) => !Blank(model) && !Blank(field)
    case AddRelation(from, _, to, via, _, _) => !Blank(from) && !Blank(to) && !Blank(via)
    case RemoveRelation(from, via) => !Blank(from) && !Blank(via)
    case UpdateAdmin(model, field, attr, _) => !Blank(model) && !Blank(field) && attr in ALLOWED_ADMIN_ATTRS
    case CreateMigration(name, sql) => !Blank(name) && !Blank(sql)
  }

  ghost predicate NthSpecGood(fields: seq<FieldSpec>, i: nat)
    requires i < |fields|
  {
    GoodSpec(fields[i]) && forall j :: 0 <= j < i ==> fields[j].name != fields[i].name
  }

  lemma {:induction false} SpecsGood(model: string, fields: seq<FieldSpec>, n: nat)
    requires n <= |fields|
    ensures ValidateSpecs(model, fields, n).Ok? <==> forall i :: 0 <= i < n ==> NthSpecGood(fields, i)
  {
    hide ValidateNthSpec, NthSpecGood;
    if n > 0 {
      SpecsGood(model, fields, n - 1);
      NthGood(model, fields, n - 1);
    }
  }

  lemma NthGood(model: string, fields: seq<FieldSpec>, i: nat)
    requires i < |fields|
    ensures ValidateNthSpec(model, fields, i).Ok? <==> NthSpecGood(fields, i)
  {
  }

  lemma SpecsWellFormed(model: string, fields: seq<FieldSpec>)
    ensures ValidateSpecs(model, fields, |fields|).Ok? <==>
      (forall f :: f in fields ==> GoodSpec(f)) && Distinct(fields, SpecName)
  {
    SpecsGood(model, fields, |fields|);
    if forall i :: 0 <= i < |fields| ==> NthSpecGood(fields, i) {
      forall f | f in fields ensures GoodSpec(f) {
        var i :| 0 <= i < |fields| && fields[i] == f;
        assert NthSpecGood(fields, i);
      }
      forall i, j | 0 <= i < j < |fields| ensures SpecName(fields[i]) != SpecName(fields[j]) {
        assert NthSpecGood(fields, j);
      }
    }
    if (forall f :: f in fields ==> GoodSpec(f)) && Distinct(fields, SpecName) {
      forall i | 0 <= i < |fields| ensures NthSpecGood(fields, i) {
        assert fields[i] in fields;
        assert forall j :: 0 <= j < i ==> SpecName(fields[j]) != SpecName(fields[i]);
      }
    }
  }

  lemma AttrsNotBlank(attr: string)
    requires attr in ALLOWED_ADMIN_ATTRS
    ensures !Blank(attr)
  {
  }

  /** The structural check accepts exactly the well-formed payloads. */
  lemma StructuralExact(p: Primitive)
    ensures ValidatePrimitive(p).Ok? <==> WellFormed(p)
  {
    match p
    case AddModel(name, table, fields) => SpecsWellFormed(name, fields);
    case UpdateAdmin(_, _, attr, _) => if attr in ALLOWED_ADMIN_ATTRS { AttrsNotBlank(attr); }
    case _ =>
  }

  // ----- every defect of a payload, in the order it is reported -----

  ghost function Verdict(problems: seq<PrimitiveError>): Check {
    if problems == [] then Ok(()) else Err(problems[0])
  }

  datatype Identifier = Identifier(text: string, which: Label)

  /** The identifiers a step must spell out, in the order they are looked at. */
  ghost function Identifiers(p: Primitive): seq<Identifier> {
    match p
    case AddModel(name, table, _) => [Identifier(name, ModelLabel), Identifier(table, TableLabel)]
    case RemoveModel(name) => [Identifier(name, ModelLabel)]
    case RenameModel(from, to) => [Identifier(from, FromLabel), Identifier(to, ToLabel)]
    case AddField(model, spec) => [Identifier(model, ModelLabel), Identifier(spec.name, FieldLabel)]
    case RenameField(model, from, to) =>
      [Identifier(model, ModelLabel), Identifier(from, FromLabel), Identifier(to, ToLabel)]
    case AddRelation(from, _, to, via, _, _) =>
      [Identifier(from, FromLabel), Identifier(to, ToLabel), Identifier(via, ViaLabel)]
    case RemoveRelation(from, via) => [Identifier(from, FromLabel), Identifier(via, ViaLabel)]
    case UpdateAdmin(model, field, attr, _) =>
      [Identifier(model, ModelLabel), Identifier(field, FieldLabel), Identifier(attr, AttrLabel)]
    case CreateMigration(name, sql) => [Identifier(name, MigrationLabel), Identifier(sql, SqlLabel)]
    case _ => [Identifier(p.model, ModelLabel), Identifier(p.field, FieldLabel)]
  }

  ghost function Missing(s: string, which: Label): seq<PrimitiveError> {
    if Blank(s) then [PrimitiveError.EmptyIdentifier(which)] else []
  }

  ghost function MissingAmong(ids: seq<Identifier>): seq<PrimitiveError> {
    if ids == [] then [] else Missing(ids[0].text, ids[0].which) + MissingAmong(ids[1..])
  }

  ghost function BadType(model: string, field: string, ty: string): seq<PrimitiveError> {
    if ValidType(ty) then [] else [UnknownType(model, field, ty)]
  }

  ghost function SameName(from: string, to: string, what: Label, name: Subject): seq<PrimitiveError> {
    if from == to then [NoOpRename(what, name)] else []
  }

  ghost function SpecDefects(model: string, fields: seq<FieldSpec>, n: nat): seq<PrimitiveError>
    requires n <= |fields|
  {
    if n == 0 then [] else SpecDefects(model, fields, n - 1) + NthDefects(model, fields, n - 1)
  }

  ghost function NthDefects(model: string, fields: seq<FieldSpec>, i: nat): seq<PrimitiveError>
    requires i < |fields|
  {
    var f := fields[i];
    Missing(f.name, FieldLabel) + BadType(model, f.name, f.ty)
    + if exists j :: 0 <= j < i && fields[j].name == f.name
      then [DuplicateFieldInAddModel(model, f.name)] else []
  }

  /** Blank identifiers first, and then what is wrong with their values. */
  ghost function Defects(p: Primitive): seq<PrimitiveError> { MissingAmong(Identifiers(p)) + BadValues(p) }

  ghost function BadValues(p: Primitive): seq<PrimitiveError> {
    match p
    case AddModel(name, _, fields) => SpecDefects(name, fields, |fields|)
    case RenameModel(from, to) => SameName(from, to, ModelLabel, Plain(from))
    case AddField(model, spec) => BadType(model, spec.name, spec.ty)
    case RenameField(model, from, to) => SameName(from, to, FieldLabel, Dotted(model, from))
    case ChangeFieldType(model, field, ty) => BadType(model, field, ty)
    case UpdateAdmin(_, _, attr, _) => if attr in ALLOWED_ADMIN_ATTRS then [] else [UnknownAdminAttribute(attr)]
    case _ => []
  }

  lemma {:induction false} FirstSpecDefect(model: string, fields: seq<FieldSpec>, n: nat)
    requires n <= |fields|
    ensures ValidateSpecs(model, fields, n) == Verdict(SpecDefects(model, fields, n))
  {
    hide ValidateSpecs, SpecDefects, Verdict;
    if n == 0 {
      NoSpecs(model, fields);
    } else {
      FirstSpecDefect(model, fields, n - 1);
      NextSpecDefect(model, fields, n);
    }
  }

  lemma NoSpecs(model: string, fields: seq<FieldSpec>)
    ensures ValidateSpecs(model, fields, 0) == Verdict(SpecDefects(model, fields, 0))
  {
  }

  lemma NextSpecDefect(model: string, fields: seq<FieldSpec>, n: nat)
    requires 0 < n <= |fields|
    requires ValidateSpecs(model, fields, n - 1) == Verdict(SpecDefects(model, fields, n - 1))
    ensures ValidateSpecs(model, fields, n) == Verdict(SpecDefects(model, fields, n))
  {
    hide ValidateSpecs, SpecDefects, ValidateNthSpec, NthDefects, Verdict;
    LastSpec(model, fields, n);
    FirstOfNth(model, fields, n - 1);
    VerdictConcat(SpecDefects(model, fields, n - 1), NthDefects(model, fields, n - 1));
  }

  lemma LastSpec(model: string, fields: seq<FieldSpec>, n: nat)
    requires 0 < n <= |fields|
    ensures SpecDefects(model, fields, n) == SpecDefects(model, fields, n - 1) + NthDefects(model, fields, n - 1)
    ensures ValidateSpecs(model, fields, n) ==
      if ValidateSpecs(model, fields, n - 1).Err? then ValidateSpecs(model, fields, n - 1)
      else ValidateNthSpec(model, fields, n - 1)
  {
    hide NthDefects, ValidateNthSpec;
  }

  lemma VerdictConcat(a: seq<PrimitiveError>, b: seq<PrimitiveError>)
    ensures Verdict(a + b) == if Verdict(a).Err? then Verdict(a) else Verdict(b)
  {
  }

  lemma FirstOfNth(model: string, fields: seq<FieldSpec>, i: nat)
    requires i < |fields|
    ensures ValidateNthSpec(model, fields, i) == Verdict(NthDefects(model, fields, i))
  {
    hide Blank, ValidType;
  }

  lemma MissingFew(ids: seq<Identifier>)
    ensures |ids| == 1 ==> MissingAmong(ids) == Missing(ids[0].text, ids[0].which)
    ensures |ids| == 2 ==>
      MissingAmong(ids) == Missing(ids[0].text, ids[0].which) + Missing(ids[1].text, ids[1].which)
    ensures |ids| == 3 ==>
      MissingAmong(ids) == Missing(ids[0].text, ids[0].which) + Missing(ids[1].text, ids[1].which)
                           + Missing(ids[2].text, ids[2].which)
  {
    if |ids| == 3 { assert ids[1..][1..] == [ids[2]]; }
  }

  /** The structural check reports the first defect there is. */
  lemma FirstDefect(p: Primitive)
    ensures ValidatePrimitive(p) == Verdict(Defects(p))
  {
    hide Blank, ValidType, MissingAmong;
    MissingFew(Identifiers(p));
    if p.AddModel? { FirstSpecDefect(p.name, p.fields, |p.fields|); }
  }

  // ----- validation against a schema -----

  function FindModel(s: Schema, name: string): Result<SchemaModel, PrimitiveError> {
    match Find(s.models, ModelName, name)
    case Some(m) => Ok(m)
    case None => Err(NotFound(ModelLabel, Plain(name)))
  }

  predicate HasModel(s: Schema, name: string) { Find(s.models, ModelName, name).Some? }

  predicate HasField(m: SchemaModel, name: string) { Find(m.fields, FieldName, name).Some? }

  predicate HasVia(m: SchemaModel, via: string) { Find(m.relations, RelationVia, via).Some? }

  function RequireField(s: Schema, model: string, field: string): Check {
    var m :- FindModel(s, model);
    if !HasField(m, field) then Err(NotFound(FieldLabel, Dotted(model, field))) else Ok(())
  }

  /** `validate_against`. */
  function ValidateAgainst(p: Primitive, s: Schema): Check {
    match p
    case AddModel(name, _, _) =>
      if HasModel(s, name) then Err(AlreadyExists(ModelLabel, Plain(name))) else Ok(())
    case RemoveModel(name) =>
      if !HasModel(s, name) then Err(NotFound(ModelLabel, Plain(name))) else Ok(())
    case AddField(model, spec) =>
      var m :- FindModel(s, model);
      if HasField(m, spec.name) then Err(AlreadyExists(FieldLabel, Dotted(model, spec.name))) else Ok(())
    case RemoveField(model, field) => RequireField(s, model, field)
    case RenameModel(from, to) =>
      var _ :- FindModel(s, from);
      if HasModel(s, to) then Err(AlreadyExists(ModelLabel, Plain(to))) else Ok(())
    case RenameField(model, from, to) =>
      var m :- FindModel(s, model);
      if !HasField(m, from) then Err(NotFound(FieldLabel, Dotted(model, from)))
      else if HasField(m, to) then Err(AlreadyExists(FieldLabel, Dotted(model, to)))
      else Ok(())
    case ChangeFieldType(model, field, _) => RequireField(s, model, field)
    case ChangeFieldNullability(model, field, _) => RequireField(s, model, field)
    case AddRelation(from, _, to, via, _, _) =>
      var m :- FindModel(s, from);
      if !HasModel(s, to) then Err(PrimitiveError.UnknownRelationTarget(from, to))
      else if HasVia(m, via) then Err(AlreadyExists(RelationLabel, Dotted(from, via)))
      else Ok(())
    case RemoveRelation(from, via) =>
      var m :- FindModel(s, from);
      if !HasVia(m, via) then Err(NotFound(RelationLabel, Dotted(from, via))) else Ok(())
    case UpdateAdmin(model, field, _, _) => RequireField(s, model, field)
    case CreateMigration(_, _) => Ok(())
  }

  // ----- the shadow -----

  function NewField(f: FieldSpec): SchemaField {
    SchemaField(f.name, f.ty, f.nullable, f.editable, None)
  }

  function NewModel(name: string, table: string, specs: seq<FieldSpec>): SchemaModel {
    SchemaModel(name, table, table, name, name, SortBy(MapSeq(specs, NewField), FieldName), [], false)
  }

  /** What a step does to the model it names. */
  function EditModel(p: Primitive, m: SchemaModel): SchemaModel {
    match p
    case AddField(_, spec) => m.(fields := SortBy(m.fields + [NewField(spec)], FieldName))
    case RemoveField(_, field) => m.(fields := Without(m.fields, FieldName, field))
    case RenameModel(_, to) => m.(name := to, singular_name := to)
    case RenameField(_, from, to) =>
      m.(fields := SortBy(UpdateFirst(m.fields, FieldName, from, f => EditField(p, f)), FieldName))
    case ChangeFieldType(_, field, _) =>
      m.(fields := UpdateFirst(m.fields, FieldName, field, f => EditField(p, f)))
    case ChangeFieldNullability(_, field, _) =>
      m.(fields := UpdateFirst(m.fields, FieldName, field, f => EditField(p, f)))
    case AddRelation(_, kind, to, via, _, _) =>
      m.(relations := m.relations + [SchemaRelation(kind.AsStr(), to, via)])
    case RemoveRelation(_, via) => m.(relations := Without(m.relations, RelationVia, via))
    case _ => m
  }

  function EditField(p: Primitive, f: SchemaField): SchemaField {
    match p
    case RenameField(_, _, to) => f.(name := to)
    case ChangeFieldType(_, _, ty) => f.(ty := ty)
    case ChangeFieldNullability(_, _, nullable) => f.(nullable := nullable)
    case _ => f
  }

  /** The model a step edits in place. */
  function OwnModel(p: Primitive): string {
    match p
    case AddRelation(from, _, _, _, _, _) => from
    case RemoveRelation(from, _) => from
    case RenameModel(from, _) => from
    case AddModel(name, _, _) => name
    case RemoveModel(name) => name
    case CreateMigration(_, _) => ""
    case _ => p.model
  }

  /** `apply_shadow` on values. */
  function ApplyModels(p: Primitive, models: seq<SchemaModel>): seq<SchemaModel> {
    match p
    case AddModel(name, table, specs) => SortBy(models + [NewModel(name, table, specs)], ModelName)
    case RemoveModel(name) => Without(models, ModelName, name)
    case RenameModel(from, _) =>
      SortBy(UpdateFirst(models, ModelName, from, m => EditModel(p, m)), ModelName)
    case UpdateAdmin(_, _, _, _) => models
    case CreateMigration(_, _) => models
    case _ => UpdateFirst(models, ModelName, OwnModel(p), m => EditModel(p, m))
  }

  function ApplyShadow(p: Primitive, s: Schema): Schema {
    s.(models := ApplyModels(p, s.models))
  }

  /** The in-memory schema a plan is simulated on. */
  class Shadow {
    const version: nat
    const rustio_version: string
    var models: seq<SchemaModel>

    constructor (initial: Schema)
      ensures Value() == initial
    {
      version, rustio_version, models := initial.version, initial.rustio_version, initial.models;
    }

    function Value(): Schema
      reads this
    {
      Schema(version, rustio_version, models)
    }

    /** `models.iter_mut().find(|m| m.name == name)`, as a position. */
    method Position(name: string) returns (i: nat)
      ensures i <= |models| && (i < |models| ==> models[i].name == name)
      ensures forall j :: 0 <= j < i ==> models[j].name != name
    {
      i := 0;
      while i < |models| && models[i].name != name
        invariant i <= |models| && forall j :: 0 <= j < i ==> models[j].name != name
      {
        i := i + 1;
      }
    }

    /** `apply_shadow`. */
    method Apply(p: Primitive)
      modifies this`models
      ensures Value() == ApplyShadow(p, old(Value()))
    {
      match p
      case AddModel(name, table, specs) =>
        models := models + [NewModel(name, table, specs)];
        models := SortBy(models, ModelName);
      case RemoveModel(name) =>
        models := Without(models, ModelName, name);
      case RenameModel(from, to) =>
        EditFound(p, from);
        models := SortBy(models, ModelName);
      case UpdateAdmin(_, _, _, _) =>
      case CreateMigration(_, _) =>
      case _ =>
        EditFound(p, OwnModel(p));
    }

    method EditFound(p: Primitive, name: string)
      modifies this`models
      ensures models == UpdateFirst(old(models), ModelName, name, m => EditModel(p, m))
    {
      var i := Position(name);
      if i < |models| {
        UpdateFirstAt(models, ModelName, i, m => EditModel(p, m));
        models := models[i := EditModel(p, models[i])];
      } else {
        UpdateFirstAbsent(models, ModelName, name, m => EditModel(p, m));
      }
    }
  }

  // ----- plans -----

  /** The three gates one step passes before it is applied. */
  function StepCheck(p: Primitive, s: Schema): Check {
    if p.IsDeveloperOnly() then Err(DeveloperOnlyNotAllowedInPlan)
    else
      var _ :- ValidatePrimitive(p);
      ValidateAgainst(p, s)
  }

  /** The shadow after `steps`, or the annotated error of the step that is refused. */
  function Run(s: Schema, steps: seq<Primitive>): Result<Schema, PrimitiveError> {
    Annotated(RunFrom(StepCheck, ApplyShadow, s, steps, 0))
  }

  function Annotated(r: Result<Schema, Stop<PrimitiveError>>): Result<Schema, PrimitiveError> {
    match r
    case Ok(t) => Ok(t)
    case Err(e) => Err(InStep(e.step, e.reason))
  }

  /** `Plan::validate`. */
  method ValidatePlan(steps: seq<Primitive>, initial: Schema) returns (r: Check)
    ensures r == match Run(initial, steps) case Ok(_) => Ok(()) case Err(e) => Err(e)
  {
    var state := new Shadow(initial);
    for idx := 0 to |steps|
      invariant fresh(state)
      invariant RunFrom(StepCheck, ApplyShadow, initial, steps, 0) ==
        RunFrom(StepCheck, ApplyShadow, state.Value(), steps[idx..], idx)
    {
      var verdict := CheckStep(steps[idx], state);
      assert verdict == StepCheck(steps[idx..][0], state.Value());
      if verdict.Err? { return Err(InStep(idx, verdict.error)); }
      state.Apply(steps[idx]);
      assert steps[idx..][1..] == steps[idx + 1..];
    }
    return Ok(());
  }

  /** The gates of one loop iteration, in order. */
  method CheckStep(p: Primitive, state: Shadow) returns (r: Check)
    ensures r == StepCheck(p, state.Value())
  {
    if p.IsDeveloperOnly() { return Err(DeveloperOnlyNotAllowedInPlan); }
    if p.AddModel? {
      r := RequireNonempty(p.name, ModelLabel);
      if r.Err? { return; }
      r := RequireNonempty(p.table, TableLabel);
      if r.Err? { return; }
      r := ValidateAddModelFields(p.name, p.fields);
    } else {
      r := ValidatePrimitive(p);
    }
    if r.Err? { return; }
    r := ValidateAgainst(p, state.Value());
  }

  /** A plan `p` followed by `q` is accepted exactly when `p` is and `q` is from the schema `p`
      leaves; the step numbers of `q` are shifted by the length of `p`. */
  lemma PlanConcat(s: Schema, p: seq<Primitive>, q: seq<Primitive>)
    ensures Run(s, p).Err? ==> Run(s, p + q) == Run(s, p)
    ensures Run(s, p).Ok? ==>
      var r := Run(Run(s, p).value, q);
      Run(s, p + q) == if r.Ok? then r else Err(InStep(|p| + r.error.step, r.error.inner))
  {
    hide StepCheck, ApplyShadow;
    RunConcatShift(StepCheck, ApplyShadow, s, p, q);
  }

  /** A rejection names the one step that is refused after all earlier ones were accepted. */
  lemma RejectionIsLeast(s: Schema, steps: seq<Primitive>, k: nat, e: PrimitiveError)
    requires k <= |steps|
    ensures Run(s, steps) == Err(InStep(k, e)) <==>
      && k < |steps| && Run(s, steps[..k]).Ok?
      && StepCheck(steps[k], Run(s, steps[..k]).value) == Err(e)
  {
    StopIsLeast(StepCheck, ApplyShadow, s, steps, k, e);
  }

  /** An accepted plan carries no developer-only step and only well-formed ones. */
  lemma AcceptedPlanIsClean(s: Schema, steps: seq<Primitive>, i: nat)
    requires Run(s, steps).Ok? && i < |steps|
    ensures !steps[i].IsDeveloperOnly() && WellFormed(steps[i])
  {
    AcceptedStep(StepCheck, ApplyShadow, s, steps, i);
    StructuralExact(steps[i]);
  }
}
