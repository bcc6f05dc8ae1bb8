/** What the plan simulation means.  A schema that keeps its invariant is a map from names to
    models, each with a map from names to fields; on these maps a step is one update, and the
    sorted vectors carry no further information. */
module PlanView {
  import opened Wrappers
  import opened Keyed
  import opened SchemaDocument
  import opened Plan

  // ----- the invariant -----

  ghost predicate GoodField(f: SchemaField) { f.name != "" && ValidType(f.ty) }

  ghost predicate ModelInv(m: SchemaModel) {
    && m.name != "" && m.table != ""
    && Ordered(m.fields, FieldName)
    && (forall f :: f in m.fields ==> GoodField(f))
    && Distinct(m.relations, RelationVia)
  }

  /** Names nonempty, distinct and sorted at both levels, tables nonempty, types valid, and the
      `via`s of each model distinct. */
  ghost predicate Inv(s: Schema) {
    Ordered(s.models, ModelName) && forall m :: m in s.models ==> ModelInv(m)
  }

  // ----- the view -----

  datatype ModelView = ModelView(head: SchemaModel, fields: map<string, SchemaField>)

  type View = map<string, ModelView>

  ghost function ViewModel(m: SchemaModel): ModelView
    requires Ordered(m.fields, FieldName)
  {
    ModelView(m.(fields := []), Index(m.fields, FieldName))
  }

  ghost predicate AllInv(models: map<string, SchemaModel>) {
    forall n :: n in models ==> ModelInv(models[n])
  }

  ghost function ViewModels(models: map<string, SchemaModel>): View
    requires AllInv(models)
  {
    map n | n in models :: ViewModel(models[n])
  }

  ghost function ModelsByName(s: Schema): (m: map<string, SchemaModel>)
    requires Inv(s)
    ensures AllInv(m)
  {
    Index(s.models, ModelName)
  }

  ghost function ViewOf(s: Schema): View
    requires Inv(s)
  {
    ViewModels(ModelsByName(s))
  }

  lemma ViewModelInjective(m: SchemaModel, n: SchemaModel)
    requires Ordered(m.fields, FieldName) && Ordered(n.fields, FieldName)
    requires ViewModel(m) == ViewModel(n)
    ensures m == n
  {
    IndexInjective(m.fields, n.fields, FieldName);
    assert m == m.(fields := []).(fields := m.fields);
    assert n == n.(fields := []).(fields := n.fields);
  }

  lemma SameModels(s: seq<SchemaModel>, t: seq<SchemaModel>)
    requires Ordered(s, ModelName) && Ordered(t, ModelName)
    requires forall n :: n in Index(s, ModelName) <==> n in Index(t, ModelName)
    requires forall n :: n in Index(s, ModelName) ==> Index(s, ModelName)[n] == Index(t, ModelName)[n]
    ensures s == t
  {
    assert Index(s, ModelName) == Index(t, ModelName);
    IndexInjective(s, t, ModelName);
  }

  /** The view determines the vectors. */
  lemma ViewInjective(s: Schema, t: Schema)
    requires Inv(s) && Inv(t) && s.(models := []) == t.(models := [])
    requires ViewOf(s) == ViewOf(t)
    ensures s == t
  {
    var a, b := ModelsByName(s), ModelsByName(t);
    forall n ensures n in a <==> n in b {
      assert n in a <==> n in ViewOf(s);
      assert n in b <==> n in ViewOf(t);
    }
    forall n | n in a ensures a[n] == b[n] {
      assert a[n] in s.models && b[n] in t.models;
      assert ViewOf(s)[n] == ViewModel(a[n]) && ViewOf(t)[n] == ViewModel(b[n]);
      ViewModelInjective(a[n], b[n]);
    }
    SameModels(s.models, t.models);
    assert s == s.(models := []).(models := s.models);
    assert t == t.(models := []).(models := t.models);
  }

  // ----- steps on the view -----

  ghost function SpecMap(specs: seq<FieldSpec>): map<string, SchemaField>
    requires Distinct(specs, SpecName)
  {
    map n | n in Index(specs, SpecName) :: NewField(Index(specs, SpecName)[n])
  }

  /** Every reason to refuse the step, in the order the source tests them. */
  ghost function Objections(v: View, p: Primitive): seq<PrimitiveError> {
    match p
    case AddModel(name, _, _) => if name in v then [AlreadyExists(ModelLabel, Plain(name))] else []
    case RemoveModel(name) => MissingModel(v, name)
    case RenameModel(from, to) =>
      MissingModel(v, from) + if to in v then [AlreadyExists(ModelLabel, Plain(to))] else []
    case CreateMigration(_, _) => []
    case _ =>
      if OwnModel(p) !in v then MissingModel(v, OwnModel(p))
      else
        (if p.AddRelation? && p.to !in v then [PrimitiveError.UnknownRelationTarget(p.from, p.to)] else [])
        + EditObjections(v[OwnModel(p)], p)
  }

  ghost function MissingModel(v: View, name: string): seq<PrimitiveError> {
    if name !in v then [NotFound(ModelLabel, Plain(name))] else []
  }

  ghost function MissingField(x: ModelView, model: string, field: string): seq<PrimitiveError> {
    if field !in x.fields then [NotFound(FieldLabel, Dotted(model, field))] else []
  }

  /** The objections that only concern the step's own model. */
  ghost function EditObjections(x: ModelView, p: Primitive): seq<PrimitiveError> {
    match p
    case AddField(model, spec) =>
      if spec.name in x.fields then [AlreadyExists(FieldLabel, Dotted(model, spec.name))] else []
    case RemoveField(model, field) => MissingField(x, model, field)
    case RenameField(model, from, to) =>
      MissingField(x, model, from)
      + if to in x.fields then [AlreadyExists(FieldLabel, Dotted(model, to))] else []
    case ChangeFieldType(model, field, _) => MissingField(x, model, field)
    case ChangeFieldNullability(model, field, _) => MissingField(x, model, field)
    case AddRelation(from, _, _, via, _, _) =>
      if HasVia(x.head, via) then [AlreadyExists(RelationLabel, Dotted(from, via))] else []
    case RemoveRelation(from, via) =>
      if !HasVia(x.head, via) then [NotFound(RelationLabel, Dotted(from, via))] else []
    case UpdateAdmin(model, field, _, _) => MissingField(x, model, field)
    case _ => []
  }

  ghost predicate Enabled(v: View, p: Primitive) { Objections(v, p) == [] }

  /** What a step does to the view of the model it edits. */
  ghost function EditView(x: ModelView, p: Primitive): ModelView {
    match p
    case AddField(_, spec) => x.(fields := x.fields[spec.name := NewField(spec)])
    case RemoveField(_, field) => x.(fields := x.fields - {field})
    case RenameField(_, from, to) =>
      if from in x.fields then x.(fields := Rekey(x.fields, from, to, x.fields[from].(name := to))) else x
    case ChangeFieldType(_, field, ty) =>
      if field in x.fields then x.(fields := x.fields[field := x.fields[field].(ty := ty)]) else x
    case ChangeFieldNullability(_, field, b) =>
      if field in x.fields then x.(fields := x.fields[field := x.fields[field].(nullable := b)]) else x
    case RenameModel(_, to) => x.(head := x.head.(name := to, singular_name := to))
    case AddRelation(_, kind, to, via, _, _) =>
      x.(head := x.head.(relations := x.head.relations + [SchemaRelation(kind.AsStr(), to, via)]))
    case RemoveRelation(_, via) =>
      x.(head := x.head.(relations := Without(x.head.relations, RelationVia, via)))
    case _ => x
  }

  ghost function MapStep(v: View, p: Primitive): View
    requires WellFormed(p)
  {
    match p
    case AddModel(name, table, specs) =>
      v[name := ModelView(SchemaModel(name, table, table, name, name, [], [], false), SpecMap(specs))]
    case RemoveModel(name) => v - {name}
    case RenameModel(from, to) => if from in v then Rekey(v, from, to, EditView(v[from], p)) else v
    case CreateMigration(_, _) => v
    case _ =>
      if OwnModel(p) in v then v[OwnModel(p) := EditView(v[OwnModel(p)], p)] else v
  }

  // ----- the gate refines its counterpart on the view -----

  lemma HasModelView(s: Schema, name: string)
    requires Inv(s)
    ensures HasModel(s, name) <==> name in ViewOf(s)
    ensures name !in ViewOf(s) ==> FindModel(s, name) == Err(NotFound(ModelLabel, Plain(name)))
    ensures name in ViewOf(s) ==> (
      var m := ModelsByName(s)[name];
      FindModel(s, name) == Ok(m) && ModelInv(m) && m.name == name && ViewOf(s)[name] == ViewModel(m))
  {
    FindIsIndex(s.models, ModelName, name);
  }

  lemma HasFieldView(m: SchemaModel, field: string)
    requires Ordered(m.fields, FieldName)
    ensures HasField(m, field) <==> field in ViewModel(m).fields
  {
    FindIsIndex(m.fields, FieldName, field);
  }

  lemma ModelGate(s: Schema, p: Primitive)
    requires Inv(s) && (p.AddModel? || p.RemoveModel? || p.RenameModel? || p.CreateMigration?)
    ensures ValidateAgainst(p, s) == Verdict(Objections(ViewOf(s), p))
  {
    match p
    case AddModel(name, _, _) => HasModelView(s, name);
    case RemoveModel(name) => HasModelView(s, name);
    case RenameModel(from, to) => HasModelView(s, from); HasModelView(s, to);
    case CreateMigration(_, _) =>
  }

  ghost predicate FieldLevel(p: Primitive) {
    p.AddField? || p.RemoveField? || p.RenameField? || p.ChangeFieldType? || p.ChangeFieldNullability?
    || p.UpdateAdmin?
  }

  ghost predicate RelationLevel(p: Primitive) { p.AddRelation? || p.RemoveRelation? }

  ghost predicate NamesField(p: Primitive) {
    p.RemoveField? || p.ChangeFieldType? || p.ChangeFieldNullability? || p.UpdateAdmin?
  }

  /** The four steps that only ask for the field they name. */
  lemma NamedFieldVerdict(s: Schema, p: Primitive)
    requires NamesField(p)
    ensures ValidateAgainst(p, s) == RequireField(s, p.model, p.field)
  {
  }

  lemma NamedFieldObjections(x: ModelView, p: Primitive)
    requires NamesField(p)
    ensures EditObjections(x, p) == MissingField(x, p.model, p.field)
  {
  }

  lemma NamedFieldGate(s: Schema, p: Primitive, m: SchemaModel)
    requires NamesField(p) && FindModel(s, p.model) == Ok(m) && Ordered(m.fields, FieldName)
    ensures ValidateAgainst(p, s) == Verdict(EditObjections(ViewModel(m), p))
  {
    hide HasField, FindModel, ValidateAgainst, EditObjections, Distinct, Sorted;
    HasFieldView(m, p.field);
    NamedFieldVerdict(s, p);
    NamedFieldObjections(ViewModel(m), p);
  }

  lemma FieldGate(s: Schema, p: Primitive, m: SchemaModel)
    requires FieldLevel(p) && FindModel(s, OwnModel(p)) == Ok(m) && Ordered(m.fields, FieldName)
    ensures ValidateAgainst(p, s) == Verdict(EditObjections(ViewModel(m), p))
  {
    hide HasField, FindModel;
    if p.AddField? { HasFieldView(m, p.spec.name); }
    else if p.RenameField? { HasFieldView(m, p.from); HasFieldView(m, p.to); }
    else { NamedFieldGate(s, p, m); }
  }

  lemma RelationGate(s: Schema, p: Primitive, m: SchemaModel)
    requires RelationLevel(p) && FindModel(s, OwnModel(p)) == Ok(m) && Ordered(m.fields, FieldName)
    ensures p.RemoveRelation? || HasModel(s, p.to) ==>
      ValidateAgainst(p, s) == Verdict(EditObjections(ViewModel(m), p))
    ensures p.AddRelation? && !HasModel(s, p.to) ==>
      ValidateAgainst(p, s) == Err(PrimitiveError.UnknownRelationTarget(p.from, p.to))
  {
  }

  /** A step inside a model that is there objects to its relation target first. */
  lemma OwnObjections(v: View, p: Primitive)
    requires (FieldLevel(p) || RelationLevel(p)) && OwnModel(p) in v
    ensures p.AddRelation? && p.to !in v ==>
      Verdict(Objections(v, p)) == Err(PrimitiveError.UnknownRelationTarget(p.from, p.to))
    ensures !p.AddRelation? || p.to in v ==> Objections(v, p) == EditObjections(v[OwnModel(p)], p)
  {
  }

  lemma NoModelVerdict(s: Schema, p: Primitive)
    requires (FieldLevel(p) || RelationLevel(p)) && FindModel(s, OwnModel(p)).Err?
    ensures ValidateAgainst(p, s) == Err(FindModel(s, OwnModel(p)).error)
  {
  }

  lemma NoModelObjections(v: View, p: Primitive)
    requires (FieldLevel(p) || RelationLevel(p)) && OwnModel(p) !in v
    ensures Objections(v, p) == MissingModel(v, OwnModel(p))
  {
  }

  lemma NoModelGate(s: Schema, p: Primitive)
    requires Inv(s) && (FieldLevel(p) || RelationLevel(p)) && OwnModel(p) !in ViewOf(s)
    ensures ValidateAgainst(p, s) == Verdict(Objections(ViewOf(s), p))
  {
    hide ValidateAgainst, Objections;
    HasModelView(s, OwnModel(p));
    NoModelVerdict(s, p);
    NoModelObjections(ViewOf(s), p);
  }

  /** `validate_against` gives the first objection there is, judged on the view. */
  lemma GateRefines(s: Schema, p: Primitive)
    requires Inv(s)
    ensures ValidateAgainst(p, s) == Verdict(Objections(ViewOf(s), p))
  {
    if !(FieldLevel(p) || RelationLevel(p)) {
      ModelGate(s, p);
    } else if OwnModel(p) !in ViewOf(s) {
      NoModelGate(s, p);
    } else {
      hide ValidateAgainst, Objections, EditObjections;
      OwnObjections(ViewOf(s), p);
      HasModelView(s, OwnModel(p));
      if p.AddRelation? { HasModelView(s, p.to); }
      if RelationLevel(p) { RelationGate(s, p, ModelsByName(s)[OwnModel(p)]); }
      else { FieldGate(s, p, ModelsByName(s)[OwnModel(p)]); }
    }
  }

  // ----- the step refines its counterpart on the view -----

  lemma FieldsReplaced(m: SchemaModel, fs: seq<SchemaField>)
    requires ModelInv(m) && Ordered(fs, FieldName) && forall f :: f in fs ==> GoodField(f)
    ensures ModelInv(m.(fields := fs))
    ensures ViewModel(m.(fields := fs)) == ViewModel(m).(fields := Index(fs, FieldName))
  {
  }

  lemma NotBlank(s: string)
    requires !Blank(s)
    ensures s != ""
  {
  }

  lemma AddFieldRefines(p: Primitive, m: SchemaModel)
    requires p.AddField? && ModelInv(m) && WellFormed(p) && EditObjections(ViewModel(m), p) == []
    ensures ModelInv(EditModel(p, m)) && ViewModel(EditModel(p, m)) == EditView(ViewModel(m), p)
  {
    var x := NewField(p.spec);
    PushSortIndex(m.fields, x, FieldName);
    SortPermutes(m.fields + [x], FieldName);
    PermutedElements(SortBy(m.fields + [x], FieldName), m.fields + [x]);
    NotBlank(p.spec.name);
    FieldsReplaced(m, SortBy(m.fields + [x], FieldName));
  }

  lemma RemoveFieldRefines(p: Primitive, m: SchemaModel)
    requires p.RemoveField? && ModelInv(m) && EditObjections(ViewModel(m), p) == []
    ensures ModelInv(EditModel(p, m)) && ViewModel(EditModel(p, m)) == EditView(ViewModel(m), p)
  {
    WithoutIndex(m.fields, FieldName, p.field);
    forall f | f in Without(m.fields, FieldName, p.field) ensures f in m.fields {
      WithoutElements(m.fields, FieldName, p.field, f);
    }
    FieldsReplaced(m, Without(m.fields, FieldName, p.field));
  }

  /** The two steps that set an attribute of a field. */
  lemma ChangeFieldRefines(p: Primitive, m: SchemaModel, field: string)
    requires p.ChangeFieldType? || p.ChangeFieldNullability?
    requires field == p.field
    requires ModelInv(m) && WellFormed(p) && EditObjections(ViewModel(m), p) == []
    ensures ModelInv(EditModel(p, m)) && ViewModel(EditModel(p, m)) == EditView(ViewModel(m), p)
  {
    var f := f => EditField(p, f);
    UpdateIndex(m.fields, FieldName, field, f);
    var fs := UpdateFirst(m.fields, FieldName, field, f);
    forall x | x in fs ensures GoodField(x) { UpdateElements(m.fields, FieldName, field, f, x); }
    FieldsReplaced(m, fs);
  }

  lemma RenameFieldRefines(p: Primitive, m: SchemaModel)
    requires p.RenameField? && ModelInv(m) && WellFormed(p) && EditObjections(ViewModel(m), p) == []
    ensures ModelInv(EditModel(p, m)) && ViewModel(EditModel(p, m)) == EditView(ViewModel(m), p)
  {
    var f := f => EditField(p, f);
    RenameIndex(m.fields, FieldName, p.from, f);
    var fs := UpdateFirst(m.fields, FieldName, p.from, f);
    NotBlank(p.to);
    forall x | x in fs ensures GoodField(x) { UpdateElements(m.fields, FieldName, p.from, f, x); }
    SortSorts(fs, FieldName);
    FieldsReplaced(m, SortBy(fs, FieldName));
  }

  lemma RelationsReplaced(m: SchemaModel, rs: seq<SchemaRelation>)
    requires ModelInv(m) && Distinct(rs, RelationVia)
    ensures ModelInv(m.(relations := rs))
    ensures ViewModel(m.(relations := rs)) == ViewModel(m).(head := ViewModel(m).head.(relations := rs))
  {
  }

  lemma NewVia(m: SchemaModel, r: SchemaRelation)
    requires Distinct(m.relations, RelationVia) && !HasVia(m, r.via)
    ensures Distinct(m.relations + [r], RelationVia)
  {
    FindElement(m.relations, RelationVia, r.via);
    IndexKeys(m.relations, RelationVia, r.via);
    PushIndex(m.relations, r, RelationVia);
  }

  lemma AddRelationRefines(p: Primitive, m: SchemaModel)
    requires p.AddRelation? && ModelInv(m) && EditObjections(ViewModel(m), p) == []
    ensures ModelInv(EditModel(p, m)) && ViewModel(EditModel(p, m)) == EditView(ViewModel(m), p)
  {
    assert HasVia(ViewModel(m).head, p.via) <==> HasVia(m, p.via);
    var r := SchemaRelation(p.kind.AsStr(), p.to, p.via);
    NewVia(m, r);
    assert EditModel(p, m) == m.(relations := m.relations + [r]);
    hide EditObjections, EditModel;
    RelationsReplaced(m, m.relations + [r]);
  }

  lemma RemoveRelationRefines(p: Primitive, m: SchemaModel)
    requires p.RemoveRelation? && ModelInv(m) && EditObjections(ViewModel(m), p) == []
    ensures ModelInv(EditModel(p, m)) && ViewModel(EditModel(p, m)) == EditView(ViewModel(m), p)
  {
    assert HasVia(ViewModel(m).head, p.via) <==> HasVia(m, p.via);
    hide EditObjections;
    FindElement(m.relations, RelationVia, p.via);
    FindIsIndex(m.relations, RelationVia, p.via);
    WithoutKeepsOrder(m.relations, RelationVia, p.via);
    RelationsReplaced(m, Without(m.relations, RelationVia, p.via));
  }

  lemma EditRefines(p: Primitive, m: SchemaModel)
    requires FieldLevel(p) || RelationLevel(p)
    requires ModelInv(m) && WellFormed(p) && EditObjections(ViewModel(m), p) == []
    ensures ModelInv(EditModel(p, m)) && EditModel(p, m).name == m.name
    ensures ViewModel(EditModel(p, m)) == EditView(ViewModel(m), p)
  {
    match p
    case AddField(_, _) => AddFieldRefines(p, m);
    case RemoveField(_, _) => RemoveFieldRefines(p, m);
    case RenameField(_, _, _) => RenameFieldRefines(p, m);
    case ChangeFieldType(_, field, _) => ChangeFieldRefines(p, m, field);
    case ChangeFieldNullability(_, field, _) => ChangeFieldRefines(p, m, field);
    case UpdateAdmin(_, _, _, _) =>
    case AddRelation(_, _, _, _, _, _) => AddRelationRefines(p, m);
    case RemoveRelation(_, _) => RemoveRelationRefines(p, m);
  }

  lemma ModelsReplaced(s: Schema, ms: seq<SchemaModel>)
    requires Ordered(ms, ModelName) && AllInv(Index(ms, ModelName))
    ensures Inv(s.(models := ms)) && ViewOf(s.(models := ms)) == ViewModels(Index(ms, ModelName))
  {
  }

  lemma ViewUpdate(im: map<string, SchemaModel>, k: string, y: SchemaModel)
    requires AllInv(im) && ModelInv(y)
    ensures AllInv(im[k := y]) && ViewModels(im[k := y]) == ViewModels(im)[k := ViewModel(y)]
  {
  }

  lemma ViewRekey(im: map<string, SchemaModel>, k: string, k': string, y: SchemaModel)
    requires AllInv(im) && ModelInv(y)
    ensures AllInv(Rekey(im, k, k', y))
    ensures ViewModels(Rekey(im, k, k', y)) == Rekey(ViewModels(im), k, k', ViewModel(y))
  {
  }

  lemma ViewRemove(im: map<string, SchemaModel>, k: string)
    requires AllInv(im)
    ensures AllInv(im - {k}) && ViewModels(im - {k}) == ViewModels(im) - {k}
  {
  }

  lemma EditStepRefines(s: Schema, p: Primitive)
    requires Inv(s) && WellFormed(p) && (FieldLevel(p) || RelationLevel(p)) && !p.UpdateAdmin?
    requires OwnModel(p) in ViewOf(s) && EditObjections(ViewOf(s)[OwnModel(p)], p) == []
    ensures Inv(ApplyShadow(p, s))
    ensures ViewOf(ApplyShadow(p, s)) == ViewOf(s)[OwnModel(p) := EditView(ViewOf(s)[OwnModel(p)], p)]
  {
    var k := OwnModel(p);
    var m := ModelsByName(s)[k];
    EditRefines(p, m);
    var f := m => EditModel(p, m);
    EditsModels(s, p, f);
    hide ApplyShadow, EditModel, EditView, EditObjections, WellFormed;
    UpdateIndex(s.models, ModelName, k, f);
    ViewUpdate(ModelsByName(s), k, EditModel(p, m));
    ModelsReplaced(s, UpdateFirst(s.models, ModelName, k, f));
  }

  lemma EditsModels(s: Schema, p: Primitive, f: SchemaModel -> SchemaModel)
    requires (FieldLevel(p) || RelationLevel(p)) && !p.UpdateAdmin?
    requires forall m :: f(m) == EditModel(p, m)
    ensures ApplyShadow(p, s) == s.(models := UpdateFirst(s.models, ModelName, OwnModel(p), f))
  {
    UpdateSame(s.models, OwnModel(p), m => EditModel(p, m), f);
  }

  lemma UpdateSame(ms: seq<SchemaModel>, k: string, f: SchemaModel -> SchemaModel, g: SchemaModel -> SchemaModel)
    requires forall m :: f(m) == g(m)
    ensures UpdateFirst(ms, ModelName, k, f) == UpdateFirst(ms, ModelName, k, g)
  {
  }

  lemma NewFieldsGood(specs: seq<FieldSpec>)
    requires Distinct(specs, SpecName) && forall f :: f in specs ==> GoodSpec(f)
    ensures var fs := MapSeq(specs, NewField); Distinct(fs, FieldName) && forall f :: f in fs ==> GoodField(f)
  {
    var fs := MapSeq(specs, NewField);
    assert forall i :: 0 <= i < |fs| ==> FieldName(fs[i]) == SpecName(specs[i]);
    forall f | f in fs ensures GoodField(f) {
      var i :| 0 <= i < |fs| && fs[i] == f;
      assert specs[i] in specs;
      NotBlank(specs[i].name);
    }
  }

  lemma NewModelRefines(name: string, table: string, specs: seq<FieldSpec>)
    requires WellFormed(AddModel(name, table, specs))
    ensures ModelInv(NewModel(name, table, specs))
    ensures ViewModel(NewModel(name, table, specs)) ==
      ModelView(SchemaModel(name, table, table, name, name, [], [], false), SpecMap(specs))
  {
    var fs := MapSeq(specs, NewField);
    NewFieldsGood(specs);
    SortSorts(fs, FieldName);
    NotBlank(name);
    NotBlank(table);
    SpecMapIndex(specs, fs);
  }

  lemma SpecMapIndex(specs: seq<FieldSpec>, fs: seq<SchemaField>)
    requires Distinct(specs, SpecName) && Distinct(fs, FieldName)
    requires fs == MapSeq(specs, NewField)
    ensures Index(fs, FieldName) == SpecMap(specs)
  {
    var m := SpecMap(specs);
    forall f | f in fs ensures FieldName(f) in m && m[FieldName(f)] == f {
      var i :| 0 <= i < |fs| && fs[i] == f;
      assert specs[i] in specs;
    }
    forall n | n in m ensures m[n] in fs && FieldName(m[n]) == n {
      var i := IndexAt(specs, SpecName, n);
      assert fs[i] == m[n];
    }
    IndexIs(fs, FieldName, m);
  }

  lemma AddModelRefines(s: Schema, name: string, table: string, specs: seq<FieldSpec>)
    requires Inv(s) && WellFormed(AddModel(name, table, specs)) && name !in ViewOf(s)
    ensures var t := ApplyShadow(AddModel(name, table, specs), s);
      Inv(t) && ViewOf(t) == MapStep(ViewOf(s), AddModel(name, table, specs))
  {
    var x := NewModel(name, table, specs);
    NewModelRefines(name, table, specs);
    PushSortIndex(s.models, x, ModelName);
    ViewUpdate(ModelsByName(s), name, x);
    ModelsReplaced(s, SortBy(s.models + [x], ModelName));
  }

  lemma RemoveModelRefines(s: Schema, name: string)
    requires Inv(s) && name in ViewOf(s)
    ensures var t := ApplyShadow(RemoveModel(name), s); Inv(t) && ViewOf(t) == ViewOf(s) - {name}
  {
    WithoutIndex(s.models, ModelName, name);
    ViewRemove(ModelsByName(s), name);
    ModelsReplaced(s, Without(s.models, ModelName, name));
  }

  lemma RenameModelRefines(s: Schema, p: Primitive)
    requires p.RenameModel? && Inv(s) && WellFormed(p) && p.from in ViewOf(s) && p.to !in ViewOf(s)
    ensures Inv(ApplyShadow(p, s)) && ViewOf(ApplyShadow(p, s)) == MapStep(ViewOf(s), p)
  {
    var m := ModelsByName(s)[p.from];
    var y := EditModel(p, m);
    NotBlank(p.to);
    assert ModelInv(y) && ViewModel(y) == EditView(ViewModel(m), p);
    var f := m => EditModel(p, m);
    RenameIndex(s.models, ModelName, p.from, f);
    var ms := UpdateFirst(s.models, ModelName, p.from, f);
    SortSorts(ms, ModelName);
    ViewRekey(ModelsByName(s), p.from, p.to, y);
    ModelsReplaced(s, SortBy(ms, ModelName));
  }

  lemma UnchangedView(s: Schema, p: Primitive)
    requires Inv(s) && WellFormed(p) && (p.UpdateAdmin? || p.CreateMigration?)
    ensures ApplyShadow(p, s) == s && MapStep(ViewOf(s), p) == ViewOf(s)
  {
  }

  /** An accepted step keeps the invariant, and what it does to the sorted vectors is the one
      update its counterpart makes on the map. */
  lemma StepRefines(s: Schema, p: Primitive)
    requires Inv(s) && WellFormed(p) && Enabled(ViewOf(s), p)
    ensures Inv(ApplyShadow(p, s)) && ViewOf(ApplyShadow(p, s)) == MapStep(ViewOf(s), p)
  {
    EnabledOwn(ViewOf(s), p);
    if p.AddModel? { AddModelRefines(s, p.name, p.table, p.fields); }
    else if p.RemoveModel? { RemoveModelRefines(s, p.name); }
    else if p.RenameModel? { RenameModelRefines(s, p); }
    else if p.UpdateAdmin? || p.CreateMigration? { UnchangedView(s, p); }
    else { EditStepRefines(s, p); }
  }

  lemma EnabledOwn(v: View, p: Primitive)
    requires Enabled(v, p)
    ensures p.AddModel? ==> p.name !in v
    ensures !p.AddModel? && !p.CreateMigration? ==> OwnModel(p) in v
    ensures p.RenameModel? ==> p.to !in v
    ensures FieldLevel(p) || RelationLevel(p) ==> EditObjections(v[OwnModel(p)], p) == []
    ensures p.AddRelation? ==> p.to in v
  {
  }
}
