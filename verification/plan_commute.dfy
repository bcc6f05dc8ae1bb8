/** Which steps of a plan may trade places.  A step reads and writes the view at a few names; steps
    whose footprints do not meet commute, and so may be swapped anywhere in a plan.  Of two steps that
    are both accepted no others commute. */
module PlanCommute {
  import opened Wrappers
  import opened Keyed
  import opened SchemaDocument
  import opened Plan
  import opened PlanView
  import opened PlanLaws
  import opened Runs

  // ----- footprints -----

  /** The models whose content or presence the step reads and may change. */
  ghost function Writes(p: Primitive): set<string> {
    match p
    case RenameModel(from, to) => {from, to}
    case CreateMigration(_, _) => {}
    case _ => {OwnModel(p)}
  }

  /** The models whose presence the step may change. */
  ghost function Presence(p: Primitive): set<string> {
    match p
    case AddModel(name, _, _) => {name}
    case RemoveModel(name) => {name}
    case RenameModel(from, to) => {from, to}
    case _ => {}
  }

  /** The models whose mere presence the step asks for. */
  ghost function Needs(p: Primitive): set<string> {
    if p.AddRelation? then {p.to} else {}
  }

  /** The fields a field-level step touches. */
  ghost function FieldNames(p: Primitive): set<string> {
    match p
    case AddField(_, spec) => {spec.name}
    case RemoveField(_, field) => {field}
    case RenameField(_, from, to) => {from, to}
    case ChangeFieldType(_, field, _) => {field}
    case ChangeFieldNullability(_, field, _) => {field}
    case UpdateAdmin(_, field, _, _) => {field}
    case _ => {}
  }

  ghost predicate Apart(p: Primitive, q: Primitive) {
    Writes(p) !! Writes(q) && Needs(p) !! Presence(q) && Needs(q) !! Presence(p)
  }

  /** A step that sets an attribute of a field, or checks that it is there. */
  ghost predicate SetsAttribute(p: Primitive) { p.ChangeFieldType? || p.ChangeFieldNullability? || p.UpdateAdmin? }

  /** Two such steps on one field that do not set the same attribute differently. */
  ghost predicate SameField(p: Primitive, q: Primitive) {
    && SetsAttribute(p) && SetsAttribute(q) && p.field == q.field
    && (p.ChangeFieldType? && q.ChangeFieldType? ==> p.new_type == q.new_type)
    && (p.ChangeFieldNullability? && q.ChangeFieldNullability? ==> p.nullable == q.nullable)
  }

  /** Two relation steps that name different `via`s and do not both push. */
  ghost predicate OtherRelation(p: Primitive, q: Primitive) {
    RelationLevel(p) && RelationLevel(q) && p.via != q.via && !(p.AddRelation? && q.AddRelation?)
  }

  /** Two edits of one model that touch different parts of it, or do not disagree. */
  ghost predicate ApartInside(p: Primitive, q: Primitive) {
    && OwnModel(p) == OwnModel(q)
    && (|| (FieldLevel(p) && FieldLevel(q) && (FieldNames(p) !! FieldNames(q) || SameField(p, q)))
        || (FieldLevel(p) && RelationLevel(q))
        || (RelationLevel(p) && FieldLevel(q))
        || OtherRelation(p, q))
  }

  ghost predicate Independent(p: Primitive, q: Primitive) { Apart(p, q) || ApartInside(p, q) }

  /** Field- and relation-level steps on different models are always independent. */
  lemma DifferentModels(p: Primitive, q: Primitive)
    requires FieldLevel(p) || RelationLevel(p)
    requires FieldLevel(q) || RelationLevel(q)
    requires OwnModel(p) != OwnModel(q)
    ensures Independent(p, q)
  {
  }

  // ----- steps are local -----

  ghost predicate AgreeAt<T(!new)>(v: map<string, T>, w: map<string, T>, k: string) {
    (k in v <==> k in w) && (k in v ==> v[k] == w[k])
  }

  ghost predicate Agree<T(!new)>(v: map<string, T>, w: map<string, T>, ks: set<string>) {
    forall k :: k in ks ==> AgreeAt(v, w, k)
  }

  lemma AgreeEverywhere<T(!new)>(v: map<string, T>, w: map<string, T>)
    requires forall k :: AgreeAt(v, w, k)
    ensures v == w
  {
    forall k ensures k in v <==> k in w { assert AgreeAt(v, w, k); }
    forall k | k in v ensures v[k] == w[k] { assert AgreeAt(v, w, k); }
  }

  lemma StepFrame(v: View, p: Primitive, k: string)
    requires WellFormed(p) && k !in Writes(p)
    ensures AgreeAt(MapStep(v, p), v, k)
  {
  }

  lemma StepPresence(v: View, p: Primitive, k: string)
    requires WellFormed(p) && k !in Presence(p)
    ensures k in MapStep(v, p) <==> k in v
  {
  }

  lemma StepLocal(v: View, w: View, p: Primitive)
    requires Agree(v, w, Writes(p)) && forall k :: k in Needs(p) ==> (k in v <==> k in w)
    ensures Objections(v, p) == Objections(w, p)
    ensures WellFormed(p) ==> Agree(MapStep(v, p), MapStep(w, p), Writes(p))
  {
  }

  /** A step does not notice an independent one before it. */
  lemma ApartKeepsGate(v: View, p: Primitive, q: Primitive)
    requires Apart(p, q) && WellFormed(p)
    ensures Enabled(MapStep(v, p), q) <==> Enabled(v, q)
    ensures WellFormed(q) ==> Agree(MapStep(MapStep(v, p), q), MapStep(v, q), Writes(q))
  {
    forall k | k in Writes(q) ensures AgreeAt(MapStep(v, p), v, k) { StepFrame(v, p, k); }
    forall k | k in Needs(q) ensures k in MapStep(v, p) <==> k in v { StepPresence(v, p, k); }
    StepLocal(MapStep(v, p), v, q);
  }

  lemma ApartCommutes(v: View, p: Primitive, q: Primitive)
    requires Apart(p, q) && WellFormed(p) && WellFormed(q)
    ensures MapStep(MapStep(v, p), q) == MapStep(MapStep(v, q), p)
  {
    var pq, qp := MapStep(MapStep(v, p), q), MapStep(MapStep(v, q), p);
    ApartKeepsGate(v, p, q);
    ApartKeepsGate(v, q, p);
    forall k ensures AgreeAt(pq, qp, k) {
      if k in Writes(q) {
        assert AgreeAt(pq, MapStep(v, q), k);
        StepFrame(MapStep(v, q), p, k);
      } else {
        StepFrame(MapStep(v, p), q, k);
        if k in Writes(p) {
          assert AgreeAt(qp, MapStep(v, p), k);
        } else {
          StepFrame(v, p, k);
          StepFrame(MapStep(v, q), p, k);
          StepFrame(v, q, k);
        }
      }
    }
    AgreeEverywhere(pq, qp);
  }

  // ----- edits of one model -----

  lemma EditFrame(x: ModelView, p: Primitive, k: string)
    requires FieldLevel(p)
    ensures EditView(x, p).head == x.head
    ensures k !in FieldNames(p) ==> AgreeAt(EditView(x, p).fields, x.fields, k)
  {
  }

  lemma EditLocal(x: ModelView, y: ModelView, p: Primitive)
    requires FieldLevel(p) && Agree(x.fields, y.fields, FieldNames(p))
    ensures EditObjections(x, p) == EditObjections(y, p)
    ensures Agree(EditView(x, p).fields, EditView(y, p).fields, FieldNames(p))
  {
  }

  lemma FieldsKeepGate(x: ModelView, p: Primitive, q: Primitive)
    requires FieldLevel(p) && FieldLevel(q) && FieldNames(p) !! FieldNames(q)
    ensures EditObjections(EditView(x, p), q) == EditObjections(x, q)
    ensures Agree(EditView(EditView(x, p), q).fields, EditView(x, q).fields, FieldNames(q))
  {
    forall k | k in FieldNames(q) ensures AgreeAt(EditView(x, p).fields, x.fields, k) { EditFrame(x, p, k); }
    EditLocal(EditView(x, p), x, q);
  }

  lemma FieldsCommute(x: ModelView, p: Primitive, q: Primitive)
    requires FieldLevel(p) && FieldLevel(q) && FieldNames(p) !! FieldNames(q)
    ensures EditView(EditView(x, p), q) == EditView(EditView(x, q), p)
  {
    var pq, qp := EditView(EditView(x, p), q), EditView(EditView(x, q), p);
    FieldsKeepGate(x, p, q);
    FieldsKeepGate(x, q, p);
    forall k ensures AgreeAt(pq.fields, qp.fields, k) {
      EditFrame(EditView(x, p), q, k);
      EditFrame(EditView(x, q), p, k);
      EditFrame(x, p, k);
      EditFrame(x, q, k);
      if k in FieldNames(q) { assert AgreeAt(pq.fields, EditView(x, q).fields, k); }
      if k in FieldNames(p) { assert AgreeAt(qp.fields, EditView(x, p).fields, k); }
    }
    AgreeEverywhere(pq.fields, qp.fields);
    EditFrame(x, p, "");
    EditFrame(x, q, "");
    EditFrame(EditView(x, p), q, "");
    EditFrame(EditView(x, q), p, "");
  }

  /** A field-level step and a relation-level step work on different parts of the model. */
  lemma FieldAndRelation(x: ModelView, p: Primitive, q: Primitive)
    requires FieldLevel(p) && RelationLevel(q)
    ensures EditView(EditView(x, p), q) == EditView(EditView(x, q), p)
    ensures EditObjections(EditView(x, p), q) == EditObjections(x, q)
    ensures EditObjections(EditView(x, q), p) == EditObjections(x, p)
  {
    EditFrame(x, p, "");
    var y := EditView(x, q);
    assert y.fields == x.fields;
    EditFrame(y, p, "");
    EditLocal(y, x, p) by { assert Agree(y.fields, x.fields, FieldNames(p)); }
    assert EditView(y, p).fields == EditView(x, p).fields by { FieldsOnly(y, x, p); }
  }

  lemma FieldsOnly(x: ModelView, y: ModelView, p: Primitive)
    requires FieldLevel(p) && x.fields == y.fields
    ensures EditView(x, p).fields == EditView(y, p).fields
  {
  }

  lemma SameFieldCommutes(x: ModelView, p: Primitive, q: Primitive)
    requires SameField(p, q)
    ensures EditView(EditView(x, p), q) == EditView(EditView(x, q), p)
  {
    assert p.field in x.fields ==> EditView(EditView(x, p), q).fields == EditView(EditView(x, q), p).fields;
  }

  lemma SameFieldKeepsGate(x: ModelView, p: Primitive, q: Primitive)
    requires SameField(p, q)
    ensures EditObjections(EditView(x, p), q) == EditObjections(x, q)
  {
    EditKeys(x, p);
    hide EditView;
  }

  lemma RelationsKeepGate(x: ModelView, p: Primitive, q: Primitive)
    requires OtherRelation(p, q)
    ensures EditObjections(EditView(x, p), q) == EditObjections(x, q)
  {
    WithoutFind(x.head.relations, RelationVia, p.via, q.via);
    if p.AddRelation? {
      PushFind(x.head.relations, SchemaRelation(p.kind.AsStr(), p.to, p.via), RelationVia, q.via);
    }
  }

  lemma RelationsCommute(x: ModelView, p: Primitive, q: Primitive)
    requires OtherRelation(p, q)
    ensures EditView(EditView(x, p), q) == EditView(EditView(x, q), p)
  {
    var rs := x.head.relations;
    if p.AddRelation? {
      PushThenRemove(rs, SchemaRelation(p.kind.AsStr(), p.to, p.via), RelationVia, q.via);
    } else if q.AddRelation? {
      PushThenRemove(rs, SchemaRelation(q.kind.AsStr(), q.to, q.via), RelationVia, p.via);
    } else {
      RemoveBoth(rs, RelationVia, p.via, q.via);
    }
  }

  lemma InsideModel(x: ModelView, p: Primitive, q: Primitive)
    requires ApartInside(p, q)
    ensures EditView(EditView(x, p), q) == EditView(EditView(x, q), p)
    ensures EditObjections(EditView(x, p), q) == EditObjections(x, q)
    ensures EditObjections(EditView(x, q), p) == EditObjections(x, p)
  {
    hide EditView, EditObjections;
    if OtherRelation(p, q) {
      RelationsCommute(x, p, q);
      RelationsKeepGate(x, p, q);
      RelationsKeepGate(x, q, p);
    }
    else if RelationLevel(p) { FieldAndRelation(x, q, p); }
    else if RelationLevel(q) { FieldAndRelation(x, p, q); }
    else if SameField(p, q) {
      SameFieldCommutes(x, p, q);
      SameFieldKeepsGate(x, p, q);
      SameFieldIsMutual(p, q);
      SameFieldKeepsGate(x, q, p);
    }
    else {
      FieldsCommute(x, p, q);
      FieldsKeepGate(x, p, q);
      FieldsKeepGate(x, q, p);
    }
  }

  // ----- no other accepted steps commute -----

  /** Both orders are accepted from `v` and meet again. */
  ghost predicate Commutes(v: View, p: Primitive, q: Primitive)
    requires WellFormed(p) && WellFormed(q)
  {
    && Enabled(MapStep(v, p), q) && Enabled(MapStep(v, q), p)
    && MapStep(MapStep(v, p), q) == MapStep(MapStep(v, q), p)
  }

  /** The same for two edits of the model seen as `x`. */
  ghost predicate EditsCommute(x: ModelView, p: Primitive, q: Primitive) {
    && EditObjections(EditView(x, p), q) == [] && EditObjections(EditView(x, q), p) == []
    && EditView(EditView(x, p), q) == EditView(EditView(x, q), p)
  }

  lemma StepKeys(v: View, p: Primitive)
    requires WellFormed(p) && Enabled(v, p)
    ensures MapStep(v, p).Keys ==
      if p.AddModel? then v.Keys + {p.name}
      else if p.RemoveModel? then v.Keys - {p.name}
      else if p.RenameModel? then v.Keys - {p.from} + {p.to}
      else v.Keys
  {
    EnabledOwn(v, p);
  }

  /** A step that adds, removes or renames a model only commutes with steps on other names. */
  lemma ModelsClash(v: View, p: Primitive, q: Primitive)
    requires p.AddModel? || p.RemoveModel? || p.RenameModel?
    requires WellFormed(p) && WellFormed(q) && !q.CreateMigration? && Enabled(v, p) && Enabled(v, q)
    requires Enabled(MapStep(v, p), q) && Enabled(MapStep(v, q), p)
    ensures Apart(p, q)
  {
    hide MapStep, Objections, WellFormed, EditObjections;
    StepKeys(v, p);
    StepKeys(v, q);
    EnabledOwn(v, p);
    EnabledOwn(v, q);
    EnabledOwn(MapStep(v, p), q);
    EnabledOwn(MapStep(v, q), p);
  }

  ghost function KeysAfter(keys: set<string>, p: Primitive): set<string> {
    if p.AddField? then keys + {p.spec.name}
    else if p.RemoveField? then keys - {p.field}
    else if p.RenameField? then keys - {p.from} + {p.to}
    else keys
  }

  lemma EditKeys(x: ModelView, p: Primitive)
    requires FieldLevel(p)
    ensures EditObjections(x, p) == [] ==> EditView(x, p).fields.Keys == KeysAfter(x.fields.Keys, p)
    ensures SetsAttribute(p) ==> EditView(x, p).fields.Keys == x.fields.Keys
  {
  }

  lemma FieldGateNeeds(x: ModelView, p: Primitive)
    requires FieldLevel(p) && EditObjections(x, p) == []
    ensures p.AddField? ==> p.spec.name !in x.fields
    ensures p.RenameField? ==> p.from in x.fields && p.to !in x.fields
    ensures p.RemoveField? || SetsAttribute(p) ==> p.field in x.fields
  {
  }

  lemma LastAttribute(x: ModelView, p: Primitive, q: Primitive)
    requires SetsAttribute(p) && SetsAttribute(q) && p.field == q.field && q.field in x.fields
    ensures q.field in EditView(EditView(x, p), q).fields
    ensures q.ChangeFieldType? ==> EditView(EditView(x, p), q).fields[q.field].ty == q.new_type
    ensures q.ChangeFieldNullability? ==> EditView(EditView(x, p), q).fields[q.field].nullable == q.nullable
  {
  }

  lemma FieldsClash(x: ModelView, p: Primitive, q: Primitive)
    requires FieldLevel(p) && FieldLevel(q) && WellFormed(p) && WellFormed(q)
    requires EditObjections(x, p) == [] && EditObjections(x, q) == [] && EditsCommute(x, p, q)
    ensures FieldNames(p) !! FieldNames(q) || SameField(p, q)
  {
    EditKeys(x, p);
    EditKeys(x, q);
    FieldGateNeeds(x, p);
    FieldGateNeeds(x, q);
    FieldGateNeeds(EditView(x, p), q);
    FieldGateNeeds(EditView(x, q), p);
    if SetsAttribute(p) && SetsAttribute(q) && p.field == q.field {
      LastAttribute(x, p, q);
      LastAttribute(x, q, p);
    }
    hide EditView, EditObjections, WellFormed;
  }

  lemma LastPushed<T>(s: seq<T>, x: T, y: T)
    ensures s + [x] + [y] == s + [y] + [x] <==> x == y
  {
    assert (s + [x] + [y])[|s|] == x && (s + [y] + [x])[|s|] == y;
  }

  lemma RelationsClash(x: ModelView, p: Primitive, q: Primitive)
    requires RelationLevel(p) && RelationLevel(q)
    requires EditObjections(x, p) == [] && EditObjections(x, q) == [] && EditsCommute(x, p, q)
    ensures OtherRelation(p, q)
  {
    var rs := x.head.relations;
    WithoutFind(rs, RelationVia, p.via, q.via);
    if p.AddRelation? && q.AddRelation? {
      var r, t := SchemaRelation(p.kind.AsStr(), p.to, p.via), SchemaRelation(q.kind.AsStr(), q.to, q.via);
      PushFind(rs, r, RelationVia, q.via);
      LastPushed(rs, r, t);
    }
  }

  lemma InsideClash(x: ModelView, p: Primitive, q: Primitive)
    requires (FieldLevel(p) || RelationLevel(p)) && (FieldLevel(q) || RelationLevel(q)) && OwnModel(p) == OwnModel(q)
    requires WellFormed(p) && WellFormed(q)
    requires EditObjections(x, p) == [] && EditObjections(x, q) == [] && EditsCommute(x, p, q)
    ensures ApartInside(p, q)
  {
    hide EditView, EditObjections, WellFormed, EditsCommute;
    if FieldLevel(p) && FieldLevel(q) { FieldsClash(x, p, q); }
    if RelationLevel(p) && RelationLevel(q) { RelationsClash(x, p, q); }
  }

  lemma InsideKeepsGate(v: View, p: Primitive, q: Primitive)
    requires ApartInside(p, q) && WellFormed(p)
    ensures Enabled(MapStep(v, p), q) <==> Enabled(v, q)
  {
    var n := OwnModel(p);
    if n in v {
      hide WellFormed, MapStep, EditView, Objections, EditObjections;
      MapStepEdit(v, p);
      EnabledExact(v, q);
      EnabledExact(MapStep(v, p), q);
      InsideModel(v[n], p, q);
    } else {
      assert MapStep(v, p) == v;
    }
  }

  lemma MissingModelStep(v: View, p: Primitive)
    requires (FieldLevel(p) || RelationLevel(p)) && WellFormed(p) && OwnModel(p) !in v
    ensures MapStep(v, p) == v
  {
  }

  lemma EditThenEdit(v: View, p: Primitive, q: Primitive)
    requires (FieldLevel(p) || RelationLevel(p)) && (FieldLevel(q) || RelationLevel(q))
    requires WellFormed(p) && WellFormed(q) && OwnModel(p) in v && OwnModel(q) == OwnModel(p)
    ensures MapStep(MapStep(v, p), q) == v[OwnModel(p) := EditView(EditView(v[OwnModel(p)], p), q)]
  {
    hide WellFormed, MapStep, EditView;
    MapStepEdit(v, p);
    MapStepEdit(MapStep(v, p), q);
  }

  lemma InsideCommutes(v: View, p: Primitive, q: Primitive)
    requires ApartInside(p, q) && WellFormed(p) && WellFormed(q)
    ensures MapStep(MapStep(v, p), q) == MapStep(MapStep(v, q), p)
  {
    hide WellFormed, MapStep, EditView, EditObjections;
    if OwnModel(p) in v {
      EditThenEdit(v, p, q);
      EditThenEdit(v, q, p);
      InsideModel(v[OwnModel(p)], p, q);
    } else {
      MissingModelStep(v, p);
      MissingModelStep(v, q);
    }
  }

  // ----- swapping inside plans -----

  lemma IndependentView(v: View, p: Primitive, q: Primitive)
    requires Independent(p, q) && WellFormed(p)
    ensures Enabled(MapStep(v, p), q) <==> Enabled(v, q)
    ensures WellFormed(q) ==> MapStep(MapStep(v, p), q) == MapStep(MapStep(v, q), p)
  {
    if Apart(p, q) {
      ApartKeepsGate(v, p, q);
      if WellFormed(q) { ApartCommutes(v, p, q); }
    } else {
      InsideKeepsGate(v, p, q);
      if WellFormed(q) { InsideCommutes(v, p, q); }
    }
  }

  lemma EditsMeet(v: View, p: Primitive, q: Primitive)
    requires (FieldLevel(p) || RelationLevel(p)) && (FieldLevel(q) || RelationLevel(q)) && OwnModel(p) == OwnModel(q)
    requires WellFormed(p) && WellFormed(q) && OwnModel(p) in v && Commutes(v, p, q)
    ensures EditsCommute(v[OwnModel(p)], p, q)
  {
    hide WellFormed, MapStep, EditView, Objections, EditObjections;
    MapStepEdit(v, p);
    MapStepEdit(v, q);
    EnabledExact(MapStep(v, p), q);
    EnabledExact(MapStep(v, q), p);
    EditThenEdit(v, p, q);
    EditThenEdit(v, q, p);
    var n := OwnModel(p);
    assert MapStep(MapStep(v, p), q)[n] == MapStep(MapStep(v, q), p)[n];
  }

  lemma ApartIsMutual(p: Primitive, q: Primitive)
    ensures Apart(p, q) <==> Apart(q, p)
  {
    hide Writes, Needs, Presence;
  }

  lemma SameFieldIsMutual(p: Primitive, q: Primitive)
    ensures SameField(p, q) <==> SameField(q, p)
    ensures OtherRelation(p, q) <==> OtherRelation(q, p)
  {
  }

  lemma IndependentIsMutual(p: Primitive, q: Primitive)
    ensures Independent(p, q) <==> Independent(q, p)
  {
    hide Apart, SameField, OtherRelation, FieldNames, OwnModel, FieldLevel, RelationLevel;
    ApartIsMutual(p, q);
    SameFieldIsMutual(p, q);
  }

  lemma AdmissibleKinds(p: Primitive)
    requires Admissible(p)
    ensures WellFormed(p)
    ensures p.AddModel? || p.RemoveModel? || p.RenameModel? || FieldLevel(p) || RelationLevel(p)
    ensures !p.CreateMigration?
  {
    hide WellFormed;
  }

  lemma OnlyIndependentCommute(v: View, p: Primitive, q: Primitive)
    requires Admissible(p) && Admissible(q) && Enabled(v, p) && Enabled(v, q) && Commutes(v, p, q)
    ensures Independent(p, q)
  {
    EnabledOwn(v, p);
    EnabledOwn(v, q);
    AdmissibleKinds(p);
    AdmissibleKinds(q);
    hide Admissible, WellFormed, MapStep, Objections, EditObjections, Apart, ApartInside;
    if !(FieldLevel(p) || RelationLevel(p)) {
      ModelsClash(v, p, q);
    } else if !(FieldLevel(q) || RelationLevel(q)) {
      ModelsClash(v, q, p);
      ApartIsMutual(p, q);
    } else if OwnModel(p) != OwnModel(q) {
      DifferentModels(p, q);
    } else {
      EditsMeet(v, p, q);
      InsideClash(v[OwnModel(p)], p, q);
    }
  }

  /** Two steps that are both accepted commute exactly when they are independent: each order is accepted
      and ends in the same view. */
  lemma CommutesExact(v: View, p: Primitive, q: Primitive)
    requires Admissible(p) && Admissible(q) && Enabled(v, p) && Enabled(v, q)
    ensures Commutes(v, p, q) <==> Independent(p, q)
  {
    hide Independent, MapStep, Objections;
    if Independent(p, q) {
      IndependentIsMutual(p, q);
      IndependentView(v, p, q);
      IndependentView(v, q, p);
    }
    if Commutes(v, p, q) { OnlyIndependentCommute(v, p, q); }
  }

  lemma SwapView(v: View, p: Primitive, q: Primitive, post: seq<Primitive>)
    requires Independent(p, q)
    ensures RunView(v, [p, q] + post) == RunView(v, [q, p] + post)
  {
    RunTwoMore(v, p, q, post);
    RunTwoMore(v, q, p, post);
    IndependentIsMutual(p, q);
    hide Independent, WellFormed, MapStep, Objections, RunView;
    if WellFormed(p) { IndependentView(v, p, q); }
    if WellFormed(q) { IndependentView(v, q, p); }
  }

  ghost predicate BothRun(v: View, p: Primitive, q: Primitive) {
    Admissible(p) && Enabled(v, p) && Admissible(q) && Enabled(MapStep(v, p), q)
  }

  lemma RunTwoMore(v: View, p: Primitive, q: Primitive, post: seq<Primitive>)
    ensures RunView(v, [p, q] + post) ==
      if BothRun(v, p, q) then RunView(MapStep(MapStep(v, p), q), post) else None
  {
    hide WellFormed, MapStep, Objections;
    var a := [p, q] + post;
    assert a[1..] == [q] + post && a[1..][1..] == post;
  }

  ghost function Outcome(s: Schema, steps: seq<Primitive>): Option<Schema> {
    var r := Run(s, steps);
    if r.Ok? then Some(r.value) else None
  }

  /** Two plans with the same run on the map have the same outcome. */
  lemma SameRun(s: Schema, a: seq<Primitive>, b: seq<Primitive>)
    requires Inv(s) && RunView(ViewOf(s), a) == RunView(ViewOf(s), b)
    ensures Outcome(s, a) == Outcome(s, b)
  {
    PlanRefines(s, a, 0);
    PlanRefines(s, b, 0);
    var x, y := RunFrom(StepCheck, ApplyShadow, s, a, 0), RunFrom(StepCheck, ApplyShadow, s, b, 0);
    if x.Ok? && y.Ok? { ViewInjective(x.value, y.value); }
  }

  lemma OutcomeConcat(s: Schema, p: seq<Primitive>, q: seq<Primitive>)
    ensures Outcome(s, p + q) == if Outcome(s, p).None? then None else Outcome(Outcome(s, p).value, q)
  {
    PlanConcat(s, p, q);
  }

  /** Independent neighbours may be swapped anywhere in a plan: the plan is accepted in both
      orders or in neither, and leaves the same schema. */
  lemma SwapIndependent(s: Schema, pre: seq<Primitive>, p: Primitive, q: Primitive, post: seq<Primitive>)
    requires Inv(s) && Independent(p, q)
    ensures Outcome(s, pre + [p, q] + post) == Outcome(s, pre + [q, p] + post)
  {
    assert pre + [p, q] + post == pre + ([p, q] + post);
    assert pre + [q, p] + post == pre + ([q, p] + post);
    OutcomeConcat(s, pre, [p, q] + post);
    OutcomeConcat(s, pre, [q, p] + post);
    if Outcome(s, pre).Some? {
      PlanRefines(s, pre, 0);
      var t := Outcome(s, pre).value;
      SwapView(ViewOf(t), p, q, post);
      SameRun(t, [p, q] + post, [q, p] + post);
    }
  }

  /** Two steps both accepted on a schema: each order is an accepted plan and both leave the same schema
      exactly when they are independent. */
  lemma AcceptedCommuteExact(s: Schema, p: Primitive, q: Primitive)
    requires Inv(s) && StepCheck(p, s).Ok? && StepCheck(q, s).Ok?
    ensures Run(s, [p, q]).Ok? && Run(s, [p, q]) == Run(s, [q, p]) <==> Independent(p, q)
  {
    StepCheckExact(s, p);
    StepCheckExact(s, q);
    hide StepCheck, ApplyShadow, Inv, Independent, MapStep, Objections, Run;
    CommutesExact(ViewOf(s), p, q);
    BothOrders(s, p, q);
  }

  lemma BothOrders(s: Schema, p: Primitive, q: Primitive)
    requires Inv(s) && Admissible(p) && Admissible(q) && Enabled(ViewOf(s), p) && Enabled(ViewOf(s), q)
    ensures Run(s, [p, q]).Ok? && Run(s, [p, q]) == Run(s, [q, p]) <==> Commutes(ViewOf(s), p, q)
  {
    var v, a, b := ViewOf(s), [p, q], [q, p];
    PlanRefines(s, a, 0);
    PlanRefines(s, b, 0);
    RunTwoMore(v, p, q, []);
    RunTwoMore(v, q, p, []);
    assert [p, q] + [] == a && [q, p] + [] == b;
    var x, y := RunFrom(StepCheck, ApplyShadow, s, a, 0), RunFrom(StepCheck, ApplyShadow, s, b, 0);
    hide StepCheck, ApplyShadow, Inv, MapStep, Objections, WellFormed, RunFrom;
    if x.Ok? && y.Ok? && ViewOf(x.value) == ViewOf(y.value) { ViewInjective(x.value, y.value); }
  }

  /** Accepted field- and relation-level steps on different models commute. */
  lemma DifferentModelsCommute(s: Schema, p: Primitive, q: Primitive)
    requires Inv(s) && StepCheck(p, s).Ok? && StepCheck(q, s).Ok? && OwnModel(p) != OwnModel(q)
    requires (FieldLevel(p) || RelationLevel(p)) && (FieldLevel(q) || RelationLevel(q))
    ensures Run(s, [p, q]).Ok? && Run(s, [p, q]) == Run(s, [q, p])
  {
    hide StepCheck, ApplyShadow, Inv, Independent, Run;
    DifferentModels(p, q);
    AcceptedCommuteExact(s, p, q);
  }
}
