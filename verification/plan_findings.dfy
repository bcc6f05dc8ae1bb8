/** Names that no plan can mention, and small schemas on which accepted steps do less than hoped. */
module PlanFindings {
  import opened Wrappers
  import opened Keyed
  import opened Order
  import opened SchemaDocument
  import opened Plan
  import opened PlanView
  import opened PlanLaws
  import opened PlanUndo
  import opened Runs

  // ----- names that a plan can mention -----

  /** The step spells out the name: as an identifier, or as a field of a new model. */
  ghost predicate Mentions(p: Primitive, name: string) {
    || (exists i :: 0 <= i < |Identifiers(p)| && Identifiers(p)[i].text == name)
    || (p.AddModel? && exists f :: f in p.fields && f.name == name)
  }

  lemma WellFormedMentions(p: Primitive, name: string)
    requires WellFormed(p) && !p.CreateMigration? && Mentions(p, name)
    ensures !Blank(name)
  {
    hide Blank, ValidType;
    if p.UpdateAdmin? { AttrsNotBlank(p.attr); }
  }

  /** No accepted plan mentions a blank name. */
  lemma AcceptedMentions(s: Schema, steps: seq<Primitive>, i: nat, name: string)
    requires Run(s, steps).Ok? && i < |steps| && Mentions(steps[i], name)
    ensures !Blank(name)
  {
    hide Mentions, Blank, WellFormed;
    AcceptedPlanIsClean(s, steps, i);
    WellFormedMentions(steps[i], name);
  }

  /** A model of the schema can be removed exactly when its name is not blank. */
  lemma RemovableExact(s: Schema, name: string)
    requires Inv(s) && name in ViewOf(s)
    ensures StepCheck(RemoveModel(name), s).Ok? <==> !Blank(name)
  {
    hide StepCheck, Inv, Blank;
    StepCheckExact(s, RemoveModel(name));
  }

  /** A field of the schema can be removed exactly when neither name is blank. */
  lemma RemovableFieldExact(s: Schema, model: string, field: string)
    requires Inv(s) && model in ViewOf(s) && field in ViewOf(s)[model].fields
    ensures StepCheck(RemoveField(model, field), s).Ok? <==> !Blank(model) && !Blank(field)
  {
    hide StepCheck, Inv, Blank;
    StepCheckExact(s, RemoveField(model, field));
  }

  ghost predicate SomePlanMentions(s: Schema, name: string) {
    exists steps, i: nat :: i < |steps| && Run(s, steps).Ok? && Mentions(steps[i], name)
  }

  lemma AddableModel(s: Schema, name: string)
    requires Inv(s) && name !in ViewOf(s) && !Blank(name)
    ensures StepCheck(AddModel(name, name, []), s).Ok?
  {
    hide StepCheck, Inv, Blank;
    StepCheckExact(s, AddModel(name, name, []));
  }

  /** On any schema that keeps the invariant: some accepted plan mentions the name exactly when it is
      not blank. */
  lemma MentionableExact(s: Schema, name: string)
    requires Inv(s)
    ensures SomePlanMentions(s, name) <==> !Blank(name)
  {
    hide StepCheck, ApplyShadow, Inv, Blank, Run;
    if SomePlanMentions(s, name) {
      var steps, i: nat :| i < |steps| && Run(s, steps).Ok? && Mentions(steps[i], name);
      AcceptedMentions(s, steps, i, name);
    }
    if !Blank(name) {
      var p := if name in ViewOf(s) then RemoveModel(name) else AddModel(name, name, []);
      if name in ViewOf(s) { RemovableExact(s, name); } else { AddableModel(s, name); }
      OneStep(s, p);
      assert Identifiers([p][0])[0].text == name;
    }
  }

  /** An `update_admin` step is accepted exactly on a field of the schema, with names that are not
      blank, for one of three attributes. */
  lemma UpdatableExact(s: Schema, p: Primitive)
    requires Inv(s) && p.UpdateAdmin?
    ensures StepCheck(p, s).Ok? <==>
      && p.model in ViewOf(s) && p.field in ViewOf(s)[p.model].fields && !Blank(p.model) && !Blank(p.field)
      && (p.attr == "searchable" || p.attr == "editable" || p.attr == "nullable")
  {
    hide StepCheck, Inv, Blank, ViewOf;
    StepCheckExact(s, p);
    AllowedExact(p.attr);
  }

  lemma AllowedExact(attr: string)
    ensures attr in ALLOWED_ADMIN_ATTRS <==> attr == "searchable" || attr == "editable" || attr == "nullable"
  {
    var a := ALLOWED_ADMIN_ATTRS;
    assert a[0] == "searchable" && a[1] == "editable" && a[2] == "nullable";
  }

  /** An accepted `add_relation` pushes the relation, with its kind spelled out, onto the model it names. */
  lemma RelationPushed(s: Schema, p: Primitive)
    requires Inv(s) && p.AddRelation? && StepCheck(p, s).Ok?
    ensures p.from in ViewOf(s) && Inv(ApplyShadow(p, s)) && p.from in ViewOf(ApplyShadow(p, s))
    ensures ViewOf(ApplyShadow(p, s))[p.from].head.relations ==
      ViewOf(s)[p.from].head.relations
      + [SchemaRelation(if p.kind == BelongsTo then "belongs_to" else "has_many", p.to, p.via)]
  {
    StepCheckExact(s, p);
    EnabledOwn(ViewOf(s), p);
    hide StepCheck, Inv, ApplyShadow, ViewOf;
    StepRefines(s, p);
  }

  // ----- small schemas -----

  function Bare(name: string, fields: seq<SchemaField>, relations: seq<SchemaRelation>): SchemaModel {
    SchemaModel(name, "t", "t", name, name, fields, relations, false)
  }

  function Document(models: seq<SchemaModel>): Schema { Schema(SCHEMA_VERSION, "", models) }

  lemma FewFields(m: SchemaModel)
    requires m.name != "" && m.table != "" && |m.fields| <= 1 && |m.relations| <= 1
    requires forall f :: f in m.fields ==> GoodField(f)
    ensures ModelInv(m)
  {
  }

  lemma OneModelInv(m: SchemaModel)
    requires ModelInv(m)
    ensures Inv(Document([m])) && ViewOf(Document([m])) == map[m.name := ViewModel(m)]
    ensures ModelsByName(Document([m])) == map[m.name := m]
  {
    IndexIs([m], ModelName, map[m.name := m]);
  }

  lemma ExportOfOne(e: AdminEntry)
    requires e.fields == []
    ensures FromAdmin([e], "") == Document([FromEntry(e)]) && FromEntry(e).fields == []
  {
    assert MapSeq([e], FromEntry) == [FromEntry(e)] && MapSeq(e.fields, FromAdminField) == [];
    assert [FromEntry(e)][1..] == [] && SortBy([FromEntry(e)], ModelName) == [FromEntry(e)];
  }

  lemma BlankRefused(s: Schema, name: string)
    requires Blank(name)
    ensures StepCheck(RemoveModel(name), s) == Err(PrimitiveError.EmptyIdentifier(ModelLabel))
  {
  }

  lemma ExportInv(e: AdminEntry)
    requires e.fields == [] && e.singular_name != "" && e.table != ""
    ensures var s := FromAdmin([e], ""); Inv(s) && Consistent(s) && e.singular_name in ViewOf(s)
  {
    ExportOfOne(e);
    FewFields(FromEntry(e));
    assert FromEntry(e).name == e.singular_name;
    assert Exportable([e]);
    hide ViewModel, Inv, ViewOf, FromAdmin, Run, ModelInv, Consistent, Exportable;
    OneModelInv(FromEntry(e));
    FromAdminValidates([e], "");
  }

  /** A consistent export whose model, named by one space, no plan can remove or mention. */
  lemma BlankNameExported()
    ensures var s := FromAdmin([AdminEntry("t", " ", " ", "t", [], false)], "");
      Inv(s) && Consistent(s) && " " in ViewOf(s) && !SomePlanMentions(s, " ")
      && StepCheck(RemoveModel(" "), s) == Err(PrimitiveError.EmptyIdentifier(ModelLabel))
  {
    assert Blank(" ");
    hide Inv, ViewOf, Blank, FromAdmin, StepCheck, Consistent, SomePlanMentions;
    var e := AdminEntry("t", " ", " ", "t", [], false);
    ExportInv(e);
    MentionableExact(FromAdmin([e], ""), " ");
    BlankRefused(FromAdmin([e], ""), " ");
  }

  /** Model `B`, and model `A` with a relation to it. */
  function Related(): Schema {
    Document([Bare("A", [], [SchemaRelation("belongs_to", "B", "b")]), Bare("B", [], [])])
  }

  lemma TwoModelsInv(a: SchemaModel, b: SchemaModel)
    requires ModelInv(a) && ModelInv(b) && Before(a.name, b.name)
    ensures Inv(Document([a, b]))
    ensures ViewOf(Document([a, b])) == map[a.name := ViewModel(a)][b.name := ViewModel(b)]
  {
    Irreflexive(a.name);
    assert Ordered([a, b], ModelName);
    hide Sorted, Distinct, ModelInv, ViewModel;
    IndexIs([a, b], ModelName, map[a.name := a][b.name := b]);
    ViewUpdate(map[], a.name, a);
    ViewUpdate(map[a.name := a], b.name, b);
    assert ViewModels(map[]) == map[];
  }

  lemma PointsToFirst(m: SchemaModel, to: string)
    requires ModelInv(m) && m.relations != [] && m.relations[0].to == to
    ensures PointsTo(ViewModel(m), to)
  {
    assert ViewModel(m).head.relations[0].to == to;
  }

  lemma HolderAndTarget(a: SchemaModel, b: SchemaModel)
    requires a.name != "" && a.table != "" && a.fields == [] && |a.relations| == 1 && a.relations[0].to == b.name
    requires b.name != "" && b.table != "" && b.fields == [] && b.relations == []
    requires Before(a.name, b.name)
    ensures Inv(Document([a, b])) && ViewOf(Document([a, b])).Keys == {a.name, b.name}
    ensures PointsTo(ViewOf(Document([a, b]))[a.name], b.name)
  {
    FewFields(a);
    FewFields(b);
    PointsToFirst(a, b.name);
    Irreflexive(a.name);
    hide ModelInv, ViewModel, Inv, ViewOf, PointsTo;
    TwoModelsInv(a, b);
  }

  lemma RelatedInv()
    ensures Inv(Related()) && ViewOf(Related()).Keys == {"A", "B"}
    ensures PointsTo(ViewOf(Related())["A"], "B")
  {
    hide Inv, ViewOf, PointsTo;
    assert Before("A", "B");
    HolderAndTarget(Related().models[0], Related().models[1]);
  }

  lemma RelatedConsistent()
    ensures Consistent(Related())
  {
    var s := Related();
    assert s.models[1].name in Names(s.models) by { assert s.models[1] in s.models; }
    assert Distinct(s.models, ModelName);
  }

  lemma LettersNotBlank()
    ensures !Blank("B") && !Blank("C") && !Blank("M") && !Blank("N") && !Blank("a") && !Blank("x")
  {
  }

  /** The plan that removes `B`, and the plan that renames it, are accepted and leave a schema that the
      full validator refuses. */
  lemma OrphansLeft()
    ensures Inv(Related()) && Consistent(Related())
    ensures var r := Run(Related(), [RemoveModel("B")]); r.Ok? && !Consistent(r.value)
    ensures var r := Run(Related(), [RenameModel("B", "C")]); r.Ok? && !Consistent(r.value)
  {
    hide Related, Inv, Consistent, Run, ViewOf, Blank, PointsTo, StepCheck, ApplyShadow;
    RelatedInv();
    RelatedConsistent();
    LettersNotBlank();
    var s := Related();
    RemovalOrphans(s, "A", "B");
    RenameOrphans(s, "A", "B", "C");
  }

  lemma RemovalOrphans(s: Schema, holder: string, target: string)
    requires Inv(s) && Consistent(s) && holder in ViewOf(s) && target in ViewOf(s) && holder != target
    requires PointsTo(ViewOf(s)[holder], target) && !Blank(target)
    ensures Run(s, [RemoveModel(target)]).Ok? && !Consistent(Run(s, [RemoveModel(target)]).value)
  {
    hide Inv, Consistent, Run, Blank, PointsTo;
    OrphanedBy(s, RemoveModel(target));
  }

  lemma RenameOrphans(s: Schema, holder: string, target: string, to: string)
    requires Inv(s) && Consistent(s) && holder in ViewOf(s) && target in ViewOf(s) && to !in ViewOf(s)
    requires PointsTo(ViewOf(s)[holder], target) && !Blank(target) && !Blank(to)
    ensures Run(s, [RenameModel(target, to)]).Ok? && !Consistent(Run(s, [RenameModel(target, to)]).value)
  {
    hide Inv, Consistent, Run, Blank, PointsTo;
    OrphanedBy(s, RenameModel(target, to));
  }

  lemma OrphanedBy(s: Schema, p: Primitive)
    requires Inv(s) && Consistent(s) && Admissible(p) && Enabled(ViewOf(s), p) && Orphans(ViewOf(s), p)
    ensures Run(s, [p]).Ok? && !Consistent(Run(s, [p]).value)
  {
    hide Inv, Consistent, StepCheck, ApplyShadow, Admissible, Enabled, Orphans, Run;
    StepCheckExact(s, p);
    OneStep(s, p);
    StaysConsistentExact(s, p);
  }

  lemma NotRestored(s: Schema, p: Primitive)
    requires Inv(s) && Admissible(p) && Enabled(ViewOf(s), p) && !Reversible(ViewOf(s), p)
    ensures Run(s, [p]).Ok? && Run(s, [p, Undo(s, p)]) != Ok(s)
  {
    hide Inv, StepCheck, ApplyShadow, Admissible, Enabled, Reversible, Undo, Run;
    StepCheckExact(s, p);
    OneStep(s, p);
    UndoExact(s, p);
  }

  lemma AnnotatedField(m: SchemaModel, f: SchemaField)
    requires ModelInv(m) && f in m.fields && f.relation.Some? && !Blank(m.name) && !Blank(f.name)
    ensures var s, p := Document([m]), RemoveField(m.name, f.name);
      Inv(s) && Run(s, [p]).Ok? && Run(s, [p, Undo(s, p)]) != Ok(s)
  {
    assert FieldName(f) in ViewModel(m).fields && ViewModel(m).fields[f.name] == f;
    hide ViewOf, Inv, Run, Undo, ModelInv, ViewModel, Blank;
    OneModelInv(m);
    NotRestored(Document([m]), RemoveField(m.name, f.name));
  }

  /** Removing a field that carries a foreign-key annotation and adding it back loses the annotation. */
  lemma AnnotationLost()
    ensures var f := SchemaField("x", "i32", false, true, Some(Relation("M", "id", BelongsTo, None, None, None)));
      var s, p := Document([Bare("M", [f], [])]), RemoveField("M", "x");
      Inv(s) && Run(s, [p]).Ok? && Run(s, [p, Undo(s, p)]) != Ok(s)
  {
    hide Inv, Run, Undo, ModelInv, ViewModel, Blank;
    var f := SchemaField("x", "i32", false, true, Some(Relation("M", "id", BelongsTo, None, None, None)));
    assert ValidType("i32") by { assert VALID_TYPE_NAMES[0] == "i32"; }
    FewFields(Bare("M", [f], []));
    LettersNotBlank();
    AnnotatedField(Bare("M", [f], []), f);
  }

  lemma OtherSingular(m: SchemaModel, to: string)
    requires ModelInv(m) && m.singular_name != m.name && to != m.name && !Blank(m.name) && !Blank(to)
    ensures var s, p := Document([m]), RenameModel(m.name, to);
      Inv(s) && Run(s, [p]).Ok? && Run(s, [p, Undo(s, p)]) != Ok(s)
  {
    assert ViewModel(m).head.singular_name == m.singular_name;
    hide ViewOf, Inv, Run, Undo, ModelInv, ViewModel, Blank;
    OneModelInv(m);
    NotRestored(Document([m]), RenameModel(m.name, to));
  }

  /** Renaming a model there and back overwrites a `singular_name` that was not its name. */
  lemma SingularNameLost()
    ensures var s := Document([Bare("M", [], []).(singular_name := "one")]);
      var p := RenameModel("M", "N");
      Inv(s) && Run(s, [p]).Ok? && Run(s, [p, Undo(s, p)]) != Ok(s)
  {
    hide Inv, Run, Undo, ModelInv, ViewModel, Blank;
    var m := Bare("M", [], []).(singular_name := "one");
    FewFields(m);
    LettersNotBlank();
    OtherSingular(m, "N");
  }

  /** Removing a relation that is not the last one and adding it back moves it to the end. */
  lemma RelationMoved()
    ensures var rs := [SchemaRelation("has_many", "M", "a"), SchemaRelation("has_many", "M", "b")];
      var s, p := Document([Bare("M", [], rs)]), RemoveRelation("M", "a");
      Inv(s) && Run(s, [p]).Ok? && Run(s, [p, Undo(s, p)]) != Ok(s)
  {
    var rs := [SchemaRelation("has_many", "M", "a"), SchemaRelation("has_many", "M", "b")];
    var m, p := Bare("M", [], rs), RemoveRelation("M", "a");
    assert RelationVia(rs[0]) != RelationVia(rs[1]);
    assert ModelInv(m);
    OneModelInv(m);
    LettersNotBlank();
    assert HasVia(m, "a") && rs[1].via != "a";
    hide Inv, Run, Blank, Undo, ViewOf, Bare;
    NotRestored(Document([m]), p);
  }
}
