/** Which step undoes which: the step read off the schema before it is changed, and exactly when
    running both gives back the identical schema. */
module PlanUndo {
  import opened Wrappers
  import opened Keyed
  import opened SchemaDocument
  import opened Plan
  import opened PlanView
  import opened PlanLaws
  import opened Runs

  // ----- the step that takes another back -----

  function SpecOf(f: SchemaField): FieldSpec { FieldSpec(f.name, f.ty, f.nullable, f.editable) }

  function KindOf(kind: string): RelationKind { if kind == HasMany.AsStr() then HasMany else BelongsTo }

  /** The `add_model` step that says as much of `m` as the vocabulary can. */
  function AddBack(m: SchemaModel): Primitive { AddModel(m.name, m.table, MapSeq(m.fields, SpecOf)) }

  /** The step that is meant to take `p` back, read off the schema `p` is about to change. */
  ghost function Undo(s: Schema, p: Primitive): Primitive
    requires Inv(s)
  {
    if p.AddModel? then RemoveModel(p.name)
    else if p.RenameModel? then RenameModel(p.to, p.from)
    else if p.CreateMigration? || OwnModel(p) !in ModelsByName(s) then p
    else if p.RemoveModel? then AddBack(ModelsByName(s)[p.name])
    else UndoInside(ViewModel(ModelsByName(s)[OwnModel(p)]), p)
  }

  /** The same for a step inside the model seen as `x`. */
  ghost function UndoInside(x: ModelView, p: Primitive): Primitive {
    match p
    case AddField(model, spec) => RemoveField(model, spec.name)
    case RenameField(model, from, to) => RenameField(model, to, from)
    case AddRelation(from, _, _, via, _, _) => RemoveRelation(from, via)
    case RemoveField(model, field) =>
      if field in x.fields then AddField(model, SpecOf(x.fields[field])) else p
    case ChangeFieldType(model, field, _) =>
      if field in x.fields then ChangeFieldType(model, field, x.fields[field].ty) else p
    case ChangeFieldNullability(model, field, _) =>
      if field in x.fields then ChangeFieldNullability(model, field, x.fields[field].nullable) else p
    case RemoveRelation(from, via) =>
      (match Find(x.head.relations, RelationVia, via)
       case None => p
       case Some(r) => AddRelation(from, KindOf(r.kind), r.to, via, false, Restrict))
    case _ => p
  }

  /** The step loses nothing that the vocabulary has no words for. */
  ghost predicate Reversible(v: View, p: Primitive) {
    match p
    case RemoveModel(name) => name in v && Describable(v[name])
    case RenameModel(from, _) => from in v && v[from].head.singular_name == from
    case RemoveField(model, field) =>
      model in v && field in v[model].fields && v[model].fields[field].relation == None
    case RemoveRelation(from, via) =>
      from in v && LastAndKnown(v, v[from].head.relations, via)
    case _ => true
  }

  /** A model that an `add_model` step can produce. */
  ghost predicate Describable(x: ModelView) {
    && x.head == HeadOnly(x.head.name, x.head.table) && !Blank(x.head.table)
    && forall n :: n in x.fields ==> x.fields[n].relation == None && !Blank(x.fields[n].name)
  }

  ghost function HeadOnly(name: string, table: string): SchemaModel {
    SchemaModel(name, table, table, name, name, [], [], false)
  }

  /** The relation `via` is the last one pushed, of a kind and target an `add_relation` can name. */
  ghost predicate LastAndKnown(v: View, rs: seq<SchemaRelation>, via: string) {
    && rs != [] && rs[|rs| - 1].via == via
    && rs[|rs| - 1].kind in {BelongsTo.AsStr(), HasMany.AsStr()}
    && !Blank(rs[|rs| - 1].to) && rs[|rs| - 1].to in v
  }

  // ----- two steps in a row, seen on the map -----

  /** `u` is accepted after `p` and gives back the view. */
  ghost predicate TakesBack(v: View, p: Primitive, u: Primitive)
    requires WellFormed(p)
  {
    Admissible(u) && Enabled(MapStep(v, p), u) && MapStep(MapStep(v, p), u) == v
  }

  lemma UndoOnView(s: Schema, p: Primitive, u: Primitive)
    requires Inv(s) && Admissible(p) && Enabled(ViewOf(s), p)
    ensures Run(s, [p, u]) == Ok(s) <==> TakesBack(ViewOf(s), p, u)
  {
    var steps := [p, u];
    PlanRefines(s, steps, 0);
    var v := ViewOf(s);
    RunTwo(v, p, u);
    var r := RunFrom(StepCheck, ApplyShadow, s, steps, 0);
    if r.Ok? && ViewOf(r.value) == v { ViewInjective(r.value, s); }
  }

  lemma RunTwo(v: View, p: Primitive, u: Primitive)
    requires Admissible(p) && Enabled(v, p)
    ensures RunView(v, [p, u]) ==
      if Admissible(u) && Enabled(MapStep(v, p), u) then Some(MapStep(MapStep(v, p), u)) else None
  {
    assert WellFormed(p);
    hide MapStep, Enabled, Admissible;
    var steps := [p, u];
    assert steps[1..] == [u] && steps[1..][1..] == [];
    assert RunView(v, steps) == RunView(MapStep(v, p), [u]);
  }

  lemma FindInModel(s: Schema, model: string)
    requires Inv(s) && model in ViewOf(s)
    ensures Find(s.models, ModelName, model) == Some(ModelsByName(s)[model])
    ensures ModelInv(ModelsByName(s)[model]) && ModelsByName(s)[model].name == model
    ensures ViewOf(s)[model] == ViewModel(ModelsByName(s)[model])
  {
    FindIsIndex(s.models, ModelName, model);
  }

  lemma RestoreEntry<T>(v: map<string, T>, n: string, x: T)
    requires n in v
    ensures (v - {n})[n := x] == v <==> v[n] == x
  {
  }

  lemma RestoreRekey<T>(v: map<string, T>, k: string, k': string, y: T, x: T)
    requires k in v && k' !in v
    ensures Rekey(Rekey(v, k, k', y), k', k, x) == v <==> x == v[k]
  {
  }

  lemma UpdateTwice<T>(v: map<string, T>, n: string, x: T, y: T)
    requires n in v
    ensures v[n := x][n := y] == v <==> y == v[n]
  {
  }

  // ----- models -----

  lemma SpecsGood(fields: seq<SchemaField>)
    requires forall f :: f in fields ==> GoodField(f)
    ensures (forall f :: f in MapSeq(fields, SpecOf) ==> GoodSpec(f)) <==>
      forall f :: f in fields ==> !Blank(f.name)
  {
    var specs := MapSeq(fields, SpecOf);
    forall i | 0 <= i < |specs| ensures specs[i] in specs && fields[i] in fields {}
    if forall f :: f in specs ==> GoodSpec(f) {
      forall f | f in fields ensures !Blank(f.name) {
        var i :| 0 <= i < |fields| && fields[i] == f;
        assert GoodSpec(specs[i]);
      }
    }
  }

  lemma SameIndexSameFields(xs: seq<SchemaField>, ys: seq<SchemaField>)
    requires Distinct(xs, FieldName) && Distinct(ys, FieldName) && |xs| == |ys|
    requires forall i :: 0 <= i < |xs| ==> xs[i].name == ys[i].name
    ensures Index(xs, FieldName) == Index(ys, FieldName) <==> xs == ys
  {
  }

  lemma SpecsOfFields(fields: seq<SchemaField>)
    requires Distinct(fields, FieldName)
    ensures Distinct(MapSeq(fields, SpecOf), SpecName)
    ensures SpecMap(MapSeq(fields, SpecOf)) == Index(fields, FieldName) <==>
      forall f :: f in fields ==> f.relation == None
  {
    var specs := MapSeq(fields, SpecOf);
    var rebuilt := MapSeq(specs, NewField);
    forall i | 0 <= i < |fields|
      ensures rebuilt[i] == fields[i].(relation := None) && SpecName(specs[i]) == FieldName(fields[i])
      ensures FieldName(rebuilt[i]) == FieldName(fields[i])
    {}
    assert Distinct(specs, SpecName);
    assert Distinct(rebuilt, FieldName);
    SpecMapIndex(specs, rebuilt);
    SameIndexSameFields(rebuilt, fields);
    NoRelations(fields, rebuilt);
  }

  lemma NoRelations(fields: seq<SchemaField>, bare: seq<SchemaField>)
    requires |bare| == |fields| && forall i :: 0 <= i < |fields| ==> bare[i] == fields[i].(relation := None)
    ensures bare == fields <==> forall f :: f in fields ==> f.relation == None
  {
  }

  lemma SpecsDistinct(m: SchemaModel)
    requires ModelInv(m)
    ensures Ordered(m.fields, FieldName)
    ensures Distinct(MapSeq(m.fields, SpecOf), SpecName)
    ensures SpecMap(MapSeq(m.fields, SpecOf)) == Index(m.fields, FieldName) <==>
      forall f :: f in m.fields ==> f.relation == None
  {
    SpecsOfFields(m.fields);
  }

  lemma AddBackAdmissible(m: SchemaModel)
    requires ModelInv(m) && !Blank(m.name)
    ensures Admissible(AddBack(m)) <==> !Blank(m.table) && forall f :: f in m.fields ==> !Blank(f.name)
  {
    SpecsGood(m.fields);
    SpecsDistinct(m);
    hide Distinct, SpecMap, SpecOf;
  }

  lemma AddBackStep(v: View, m: SchemaModel)
    requires Admissible(AddBack(m)) && Distinct(MapSeq(m.fields, SpecOf), SpecName) && m.name !in v
    ensures Enabled(v, AddBack(m))
    ensures MapStep(v, AddBack(m)) ==
      v[m.name := ModelView(HeadOnly(m.name, m.table), SpecMap(MapSeq(m.fields, SpecOf)))]
  {
  }

  lemma DescribableFields(m: SchemaModel)
    requires ModelInv(m)
    ensures Describable(ViewModel(m)) <==>
      && ViewModel(m).head == HeadOnly(m.name, m.table) && !Blank(m.table)
      && (forall f :: f in m.fields ==> f.relation == None)
      && forall f :: f in m.fields ==> !Blank(f.name)
  {
  }

  lemma RemoveStep(v: View, name: string)
    requires !Blank(name)
    ensures WellFormed(RemoveModel(name)) && MapStep(v, RemoveModel(name)) == v - {name}
  {
  }

  lemma RemoveThenAddModel(v: View, m: SchemaModel)
    requires ModelInv(m) && m.name in v && v[m.name] == ViewModel(m) && !Blank(m.name)
    ensures TakesBack(v, RemoveModel(m.name), AddBack(m)) <==> Describable(ViewModel(m))
  {
    RemoveStep(v, m.name);
    hide WellFormed, Objections, MapStep, Describable, ModelInv;
    AddBackAdmissible(m);
    SpecsDistinct(m);
    DescribableFields(m);
    RestoreEntry(v, m.name, ModelView(HeadOnly(m.name, m.table), SpecMap(MapSeq(m.fields, SpecOf))));
    if Admissible(AddBack(m)) { AddBackStep(v - {m.name}, m); }
  }

  lemma AddThenRemove(v: View, p: Primitive)
    requires p.AddModel? && WellFormed(p) && p.name !in v
    ensures TakesBack(v, p, RemoveModel(p.name))
  {
  }

  lemma RenameBack(v: View, p: Primitive)
    requires p.RenameModel? && WellFormed(p) && p.from in v && p.to !in v && v[p.from].head.name == p.from
    ensures TakesBack(v, p, RenameModel(p.to, p.from)) <==> v[p.from].head.singular_name == p.from
  {
    var u := RenameModel(p.to, p.from);
    var y := EditView(v[p.from], p);
    RestoreRekey(v, p.from, p.to, y, EditView(y, u));
    var h := v[p.from].head;
    assert EditView(y, u).head == h.(singular_name := p.from);
    assert h.(singular_name := p.from) == h <==> h.singular_name == p.from;
  }

  // ----- steps inside a model -----

  /** What the invariant gives for the view of one model. */
  ghost predicate ViewInv(x: ModelView) {
    && (forall n :: n in x.fields ==> x.fields[n].name == n && GoodField(x.fields[n]))
    && Distinct(x.head.relations, RelationVia)
  }

  /** `u` is accepted after `p` inside a model seen as `x`, and gives back `x`. */
  ghost predicate EditUndoes(v: View, x: ModelView, p: Primitive, u: Primitive) {
    && WellFormed(u) && (u.AddRelation? ==> u.to in v)
    && EditObjections(EditView(x, p), u) == [] && EditView(EditView(x, p), u) == x
  }

  /** Two edits of one model, seen on the map. */
  lemma EditTwice(v: View, p: Primitive, u: Primitive)
    requires (FieldLevel(p) || RelationLevel(p)) && (FieldLevel(u) || RelationLevel(u))
    requires WellFormed(p) && WellFormed(u) && OwnModel(p) in v && OwnModel(u) == OwnModel(p)
    ensures MapStep(MapStep(v, p), u) == v <==> EditView(EditView(v[OwnModel(p)], p), u) == v[OwnModel(p)]
  {
    hide WellFormed, EditView, MapStep;
    MapStepEdit(v, p);
    var n, w := OwnModel(p), MapStep(v, p);
    MapStepEdit(w, u);
    UpdateTwice(v, n, w[n], EditView(w[n], u));
  }

  lemma EditTakesBack(v: View, p: Primitive, u: Primitive)
    requires (FieldLevel(p) || RelationLevel(p)) && (FieldLevel(u) || RelationLevel(u))
    requires WellFormed(p) && OwnModel(p) in v && OwnModel(u) == OwnModel(p)
    ensures TakesBack(v, p, u) <==> EditUndoes(v, v[OwnModel(p)], p, u)
  {
    hide WellFormed, EditView, EditObjections, MapStep, Objections;
    MapStepEdit(v, p);
    EnabledExact(MapStep(v, p), u);
    if WellFormed(u) { EditTwice(v, p, u); }
  }

  lemma FieldUndone(v: View, x: ModelView, p: Primitive)
    requires p.AddField? && WellFormed(p) && EditObjections(x, p) == []
    ensures EditUndoes(v, x, p, UndoInside(x, p))
  {
  }

  lemma FieldRenamedBack(v: View, x: ModelView, p: Primitive)
    requires p.RenameField? && WellFormed(p) && EditObjections(x, p) == [] && ViewInv(x)
    ensures EditUndoes(v, x, p, UndoInside(x, p))
  {
    var f := x.fields[p.from];
    RestoreRekey(x.fields, p.from, p.to, f.(name := p.to), f);
    assert f.(name := p.to).(name := p.from) == f;
  }

  lemma FieldAddedBack(v: View, x: ModelView, p: Primitive)
    requires p.RemoveField? && WellFormed(p) && EditObjections(x, p) == [] && ViewInv(x)
    ensures p.field in x.fields
    ensures EditUndoes(v, x, p, UndoInside(x, p)) <==> x.fields[p.field].relation == None
  {
    var f := x.fields[p.field];
    RestoreEntry(x.fields, p.field, NewField(SpecOf(f)));
    assert NewField(SpecOf(f)) == f <==> f.relation == None;
  }

  lemma FieldChangedBack(v: View, x: ModelView, p: Primitive)
    requires p.ChangeFieldType? || p.ChangeFieldNullability?
    requires WellFormed(p) && EditObjections(x, p) == [] && ViewInv(x)
    ensures EditUndoes(v, x, p, UndoInside(x, p))
  {
    var f, u := x.fields[p.field], UndoInside(x, p);
    assert f.(ty := f.ty) == f && f.(nullable := f.nullable) == f;
    var y := EditView(x, p);
    assert p.field in y.fields && x.fields == y.fields[p.field := f];
    if p.ChangeFieldType? { assert EditView(y, u) == x; } else { assert EditView(y, u) == x; }
  }

  lemma PushThenWithout(rs: seq<SchemaRelation>, r: SchemaRelation)
    requires Distinct(rs, RelationVia) && Find(rs, RelationVia, r.via) == None
    ensures Without(rs + [r], RelationVia, r.via) == rs
    ensures Find(rs + [r], RelationVia, r.via) == Some(r)
  {
    FindElement(rs, RelationVia, r.via);
    IndexKeys(rs, RelationVia, r.via);
    PushIndex(rs, r, RelationVia);
    FindIsIndex(rs + [r], RelationVia, r.via);
    assert RelationVia((rs + [r])[|rs|]) == r.via;
    WithoutAt(rs + [r], RelationVia, |rs|);
  }

  lemma WithoutThenPush(rs: seq<SchemaRelation>, via: string, r: SchemaRelation)
    requires Distinct(rs, RelationVia) && HasKey(rs, RelationVia, via) && r.via == via
    ensures Without(rs, RelationVia, via) + [r] == rs <==> rs[|rs| - 1] == r
  {
  }

  lemma WithoutVia(rs: seq<SchemaRelation>, via: string)
    ensures Find(Without(rs, RelationVia, via), RelationVia, via) == None
  {
    var found := Find(Without(rs, RelationVia, via), RelationVia, via);
    FindElement(Without(rs, RelationVia, via), RelationVia, via);
    if found.Some? { WithoutElements(rs, RelationVia, via, found.value); }
  }

  lemma LastOfKey(rs: seq<SchemaRelation>, via: string, r: SchemaRelation, r': SchemaRelation)
    requires Distinct(rs, RelationVia) && r in rs && r.via == via
    requires r' == r.(kind := r'.kind)
    ensures rs[|rs| - 1] == r' <==> rs[|rs| - 1] == r && r'.kind == r.kind
  {
  }

  lemma KindRoundTrip(kind: string)
    ensures kind == KindOf(kind).AsStr() <==> kind == BelongsTo.AsStr() || kind == HasMany.AsStr()
  {
  }

  lemma RelationRemovedBack(v: View, x: ModelView, p: Primitive)
    requires p.AddRelation? && WellFormed(p) && EditObjections(x, p) == [] && ViewInv(x)
    ensures EditUndoes(v, x, p, UndoInside(x, p))
  {
    var rs, r := x.head.relations, SchemaRelation(p.kind.AsStr(), p.to, p.via);
    PushThenWithout(rs, r);
    assert x.head.(relations := rs + [r]).(relations := rs) == x.head;
  }

  lemma RelationsRestored(rs: seq<SchemaRelation>, via: string, r: SchemaRelation, r': SchemaRelation)
    requires Distinct(rs, RelationVia) && Find(rs, RelationVia, via) == Some(r)
    requires r' == SchemaRelation(KindOf(r.kind).AsStr(), r.to, via)
    ensures Find(Without(rs, RelationVia, via), RelationVia, via) == None && rs != []
    ensures Without(rs, RelationVia, via) + [r'] == rs <==>
      rs[|rs| - 1].via == via && rs[|rs| - 1].kind in {BelongsTo.AsStr(), HasMany.AsStr()}
    ensures rs[|rs| - 1].via == via ==> rs[|rs| - 1] == r
  {
    FindElement(rs, RelationVia, via);
    var i :| 0 <= i < |rs| && rs[i] == r;
    assert HasKey(rs, RelationVia, via);
    WithoutVia(rs, via);
    WithoutThenPush(rs, via, r');
    LastOfKey(rs, via, r, r');
    KindRoundTrip(r.kind);
    if rs[|rs| - 1].via == via { assert RelationVia(rs[i]) == RelationVia(rs[|rs| - 1]); }
  }

  lemma RelationsReplaced(x: ModelView, p: Primitive, u: Primitive)
    requires p.RemoveRelation? && u.AddRelation?
    ensures var back := Without(x.head.relations, RelationVia, p.via) + [SchemaRelation(u.kind.AsStr(), u.to, u.via)];
      EditView(EditView(x, p), u) == x <==> back == x.head.relations
    ensures EditObjections(EditView(x, p), u) == [] <==>
      Find(Without(x.head.relations, RelationVia, p.via), RelationVia, u.via) == None
  {
  }

  lemma RelationAddedBack(v: View, x: ModelView, p: Primitive)
    requires p.RemoveRelation? && WellFormed(p) && EditObjections(x, p) == [] && ViewInv(x)
    ensures EditUndoes(v, x, p, UndoInside(x, p)) <==> LastAndKnown(v, x.head.relations, p.via)
  {
    var r := Find(x.head.relations, RelationVia, p.via).value;
    RelationsRestored(x.head.relations, p.via, r, SchemaRelation(KindOf(r.kind).AsStr(), r.to, p.via));
    var u := AddRelation(p.from, KindOf(r.kind), r.to, p.via, false, Restrict);
    RelationNamed(x, p, r, u);
    hide WellFormed, EditView, EditObjections, UndoInside;
    RelationsReplaced(x, p, u);
  }

  lemma RelationNamed(x: ModelView, p: Primitive, r: SchemaRelation, u: Primitive)
    requires p.RemoveRelation? && WellFormed(p) && Find(x.head.relations, RelationVia, p.via) == Some(r)
    requires u == AddRelation(p.from, KindOf(r.kind), r.to, p.via, false, Restrict)
    ensures UndoInside(x, p) == u
    ensures WellFormed(u) <==> !Blank(r.to)
  {
  }

  lemma InsideExact(v: View, p: Primitive, x: ModelView)
    requires (FieldLevel(p) || RelationLevel(p)) && WellFormed(p) && OwnModel(p) in v && x == v[OwnModel(p)]
    requires EditObjections(x, p) == [] && ViewInv(x)
    ensures EditUndoes(v, x, p, UndoInside(x, p)) <==> Reversible(v, p)
  {
    hide WellFormed, EditUndoes, EditObjections, ViewInv, LastAndKnown;
    if p.AddField? { FieldUndone(v, x, p); }
    else if p.RenameField? { FieldRenamedBack(v, x, p); }
    else if p.RemoveField? { FieldAddedBack(v, x, p); }
    else if p.AddRelation? { RelationRemovedBack(v, x, p); }
    else if p.RemoveRelation? { RelationAddedBack(v, x, p); }
    else if p.UpdateAdmin? { NothingUndone(v, x, p); }
    else { FieldChangedBack(v, x, p); }
  }

  lemma NothingUndone(v: View, x: ModelView, p: Primitive)
    requires p.UpdateAdmin? && WellFormed(p) && EditObjections(x, p) == []
    ensures EditUndoes(v, x, p, UndoInside(x, p))
  {
  }

  lemma OwnUnchanged(x: ModelView, p: Primitive)
    requires FieldLevel(p) || RelationLevel(p)
    ensures OwnModel(UndoInside(x, p)) == OwnModel(p)
    ensures FieldLevel(UndoInside(x, p)) || RelationLevel(UndoInside(x, p))
  {
  }

  lemma ViewModelInv(m: SchemaModel)
    requires ModelInv(m)
    ensures ViewInv(ViewModel(m))
  {
  }

  lemma UndoInsideExact(v: View, p: Primitive, x: ModelView)
    requires (FieldLevel(p) || RelationLevel(p)) && WellFormed(p) && OwnModel(p) in v && x == v[OwnModel(p)]
    requires EditObjections(x, p) == [] && ViewInv(x)
    ensures TakesBack(v, p, UndoInside(x, p)) <==> Reversible(v, p)
  {
    hide WellFormed, TakesBack, EditObjections, EditUndoes, ViewInv, Reversible, UndoInside;
    OwnUnchanged(x, p);
    EditTakesBack(v, p, UndoInside(x, p));
    InsideExact(v, p, x);
  }

  // ----- the law -----

  /** The undo gives back the view exactly when the step loses nothing. */
  lemma UndoOnViewExact(s: Schema, p: Primitive)
    requires Inv(s) && Admissible(p) && Enabled(ViewOf(s), p)
    ensures TakesBack(ViewOf(s), p, Undo(s, p)) <==> Reversible(ViewOf(s), p)
  {
    hide TakesBack, Objections, UndoInside, EditObjections;
    var v := ViewOf(s);
    EnabledOwn(v, p);
    if p.AddModel? {
      AddThenRemove(v, p);
    } else if p.CreateMigration? {
      assert false;
    } else {
      FindInModel(s, OwnModel(p));
      var m := ModelsByName(s)[OwnModel(p)];
      if p.RemoveModel? { RemoveThenAddModel(v, m); }
      else if p.RenameModel? { RenameBack(v, p); }
      else { ViewModelInv(m); UndoInsideExact(v, p, ViewModel(m)); }
    }
  }

  /** The step and its undo, run as a plan, give back the identical schema exactly when the step
      loses nothing the vocabulary cannot say.  For adding a model, field or relation, renaming a
      field and changing a field's type or nullability that is always. */
  lemma UndoExact(s: Schema, p: Primitive)
    requires Inv(s) && StepCheck(p, s).Ok?
    ensures Run(s, [p, Undo(s, p)]) == Ok(s) <==> Reversible(ViewOf(s), p)
  {
    StepCheckExact(s, p);
    hide StepCheck, ApplyShadow, Undo, Reversible, MapStep, Objections;
    UndoOnView(s, p, Undo(s, p));
    UndoOnViewExact(s, p);
  }
}
