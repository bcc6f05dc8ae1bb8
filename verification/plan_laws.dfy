/** Laws of accepted plans: the invariant over whole runs, when the full validator keeps passing,
    and what a step inside one model does to the map. */
module PlanLaws {
  import opened Wrappers
  import opened Keyed
  import opened SchemaDocument
  import opened Plan
  import opened PlanView
  import opened Runs

  // ----- whole plans -----

  /** Accepted by the gates that do not look at the schema. */
  ghost predicate Admissible(p: Primitive) { !p.IsDeveloperOnly() && WellFormed(p) }

  ghost function RunView(v: View, steps: seq<Primitive>): Option<View>
    decreases |steps|
  {
    if steps == [] then Some(v)
    else if Admissible(steps[0]) && Enabled(v, steps[0]) then RunView(MapStep(v, steps[0]), steps[1..])
    else None
  }

  lemma StepCheckExact(s: Schema, p: Primitive)
    requires Inv(s)
    ensures StepCheck(p, s).Ok? <==> Admissible(p) && Enabled(ViewOf(s), p)
  {
    StructuralExact(p);
    GateRefines(s, p);
  }

  ghost predicate SameHeader(s: Schema, t: Schema) { s.(models := []) == t.(models := []) }

  /** A plan is accepted exactly when its run on the map is, and the schema it leaves keeps the
      invariant and has the view that run computes. */
  lemma {:induction false} PlanRefines(s: Schema, steps: seq<Primitive>, k: nat)
    requires Inv(s)
    ensures var r := RunFrom(StepCheck, ApplyShadow, s, steps, k);
      && (r.Ok? <==> RunView(ViewOf(s), steps).Some?)
      && (r.Ok? ==> Inv(r.value) && SameHeader(s, r.value)
                    && ViewOf(r.value) == RunView(ViewOf(s), steps).value)
    decreases |steps|
  {
    if steps != [] {
      StepCheckExact(s, steps[0]);
      if StepCheck(steps[0], s).Ok? {
        StepRefines(s, steps[0]);
        PlanRefines(ApplyShadow(steps[0], s), steps[1..], k + 1);
      }
    }
  }

  /** Every schema reached while an accepted plan is validated keeps the invariant. */
  lemma ReachedKeepsInvariant(s: Schema, steps: seq<Primitive>, i: nat)
    requires Inv(s) && Run(s, steps).Ok? && i <= |steps|
    ensures Run(s, steps[..i]).Ok? && Inv(Run(s, steps[..i]).value)
  {
    assert steps == steps[..i] + steps[i..];
    RunConcat(StepCheck, ApplyShadow, s, steps[..i], steps[i..], 0);
    PlanRefines(s, steps[..i], 0);
  }

  // ----- the full validator -----

  ghost predicate PointsTo(x: ModelView, name: string) {
    exists i :: 0 <= i < |x.head.relations| && x.head.relations[i].to == name
  }

  ghost predicate NoDangling(v: View) {
    forall n, t :: n in v && PointsTo(v[n], t) ==> t in v
  }

  ghost predicate TargetsKnown(m: SchemaModel, names: set<string>) {
    forall r :: r in m.relations ==> r.to in names
  }

  lemma ConsistentByTargets(s: Schema)
    requires Inv(s)
    ensures Consistent(s) <==>
      s.version == SCHEMA_VERSION && forall m :: m in s.models ==> TargetsKnown(m, Names(s.models))
  {
  }

  lemma NamesAreKeys(s: Schema, n: string)
    requires Inv(s)
    ensures n in Names(s.models) <==> n in ViewOf(s)
  {
  }

  /** On a schema that keeps the invariant, the validator only adds the version and that every
      relation has its target. */
  lemma ConsistentExact(s: Schema)
    requires Inv(s)
    ensures Consistent(s) <==> s.version == SCHEMA_VERSION && NoDangling(ViewOf(s))
  {
    ConsistentByTargets(s);
    var v := ViewOf(s);
    if NoDangling(v) {
      forall m, r | m in s.models && r in m.relations ensures r.to in Names(s.models) {
        assert ModelName(m) in v && v[ModelName(m)] == ViewModel(m);
        assert PointsTo(v[ModelName(m)], r.to);
        NamesAreKeys(s, r.to);
      }
    }
    if forall m :: m in s.models ==> TargetsKnown(m, Names(s.models)) {
      forall n, t | n in v && PointsTo(v[n], t) ensures t in v {
        var m := ModelsByName(s)[n];
        assert m in s.models;
        var i :| 0 <= i < |m.relations| && m.relations[i].to == t;
        assert m.relations[i] in m.relations;
        NamesAreKeys(s, t);
      }
    }
  }

  /** A step that takes a name away while a relation of a surviving model still targets it. */
  ghost predicate Orphans(v: View, p: Primitive) {
    match p
    case RemoveModel(name) => exists n :: n in v && n != name && PointsTo(v[n], name)
    case RenameModel(from, _) => exists n :: n in v && PointsTo(v[n], from)
    case _ => false
  }

  lemma EditPointsTo(x: ModelView, p: Primitive, t: string)
    requires FieldLevel(p) || RelationLevel(p)
    ensures PointsTo(EditView(x, p), t) ==> PointsTo(x, t) || (p.AddRelation? && t == p.to)
  {
    if PointsTo(EditView(x, p), t) && RelationLevel(p) {
      var rs := EditView(x, p).head.relations;
      var i :| 0 <= i < |rs| && rs[i].to == t;
      if p.RemoveRelation? {
        WithoutElements(x.head.relations, RelationVia, p.via, rs[i]);
      } else if i < |x.head.relations| {
        assert x.head.relations[i].to == t;
      }
    }
  }

  lemma EditKeepsTargets(v: View, p: Primitive)
    requires NoDangling(v) && WellFormed(p) && Enabled(v, p) && (FieldLevel(p) || RelationLevel(p))
    ensures NoDangling(MapStep(v, p))
  {
    EnabledOwn(v, p);
    var w := MapStep(v, p);
    forall n, t | n in w && PointsTo(w[n], t) ensures t in w {
      if n == OwnModel(p) { EditPointsTo(v[n], p, t); }
    }
  }

  lemma RemoveKeepsTargets(v: View, name: string)
    requires NoDangling(v) && name in v
    ensures NoDangling(v - {name}) <==> !Orphans(v, RemoveModel(name))
  {
    var w := v - {name};
    if Orphans(v, RemoveModel(name)) {
      var n :| n in v && n != name && PointsTo(v[n], name);
      assert n in w && PointsTo(w[n], name);
    }
  }

  lemma RenameKeepsTargets(v: View, p: Primitive)
    requires p.RenameModel? && NoDangling(v) && WellFormed(p) && Enabled(v, p)
    ensures NoDangling(MapStep(v, p)) <==> !Orphans(v, p)
  {
  }

  lemma TargetsExact(v: View, p: Primitive)
    requires NoDangling(v) && WellFormed(p) && Enabled(v, p)
    ensures NoDangling(MapStep(v, p)) <==> !Orphans(v, p)
  {
    EnabledOwn(v, p);
    if p.RemoveModel? { RemoveKeepsTargets(v, p.name); }
    else if p.RenameModel? { RenameKeepsTargets(v, p); }
    else if FieldLevel(p) || RelationLevel(p) { EditKeepsTargets(v, p); }
    else if p.AddModel? {
      var w := MapStep(v, p);
      forall n, t | n in w && PointsTo(w[n], t) ensures t in w { assert n != p.name; }
    }
  }

  /** The full validator still passes after an accepted step exactly when the step orphans no
      relation. */
  lemma StaysConsistentExact(s: Schema, p: Primitive)
    requires Inv(s) && Consistent(s) && StepCheck(p, s).Ok?
    ensures Consistent(ApplyShadow(p, s)) <==> !Orphans(ViewOf(s), p)
  {
    StepCheckExact(s, p);
    StepRefines(s, p);
    ConsistentExact(s);
    ConsistentExact(ApplyShadow(p, s));
    TargetsExact(ViewOf(s), p);
  }

  /** `steps` run on `v` and no step orphans a relation on the way. */
  ghost predicate NeverOrphans(v: View, steps: seq<Primitive>)
    decreases |steps|
  {
    steps == [] || (
      Admissible(steps[0]) && !Orphans(v, steps[0]) && NeverOrphans(MapStep(v, steps[0]), steps[1..]))
  }

  lemma OneStep(s: Schema, p: Primitive)
    ensures Run(s, [p]) == if StepCheck(p, s).Ok? then Ok(ApplyShadow(p, s))
                           else Err(InStep(0, StepCheck(p, s).error))
  {
    hide StepCheck, ApplyShadow;
    assert [p][1..] == [];
    assert RunFrom(StepCheck, ApplyShadow, ApplyShadow(p, s), [], 1).Ok?;
  }

  /** The first `i` steps are accepted and leave a schema that passes the full validator. */
  ghost predicate PassesAfter(s: Schema, steps: seq<Primitive>, i: nat)
    requires i <= |steps|
  {
    Run(s, steps[..i]).Ok? && Consistent(Run(s, steps[..i]).value)
  }

  lemma PassesShift(s: Schema, steps: seq<Primitive>, i: nat)
    requires i < |steps| && StepCheck(steps[0], s).Ok?
    ensures PassesAfter(s, steps, i + 1) <==> PassesAfter(ApplyShadow(steps[0], s), steps[1..], i)
  {
    hide StepCheck, ApplyShadow, Run;
    OneStep(s, steps[0]);
    PlanConcat(s, [steps[0]], steps[1..][..i]);
    assert steps[..i + 1] == [steps[0]] + steps[1..][..i];
  }

  lemma AcceptedRest(s: Schema, steps: seq<Primitive>)
    requires steps != [] && Run(s, steps).Ok?
    ensures StepCheck(steps[0], s).Ok? && Run(ApplyShadow(steps[0], s), steps[1..]).Ok?
  {
    hide StepCheck, ApplyShadow, Run;
    OneStep(s, steps[0]);
    assert steps == [steps[0]] + steps[1..];
    PlanConcat(s, [steps[0]], steps[1..]);
  }

  /** Over a whole accepted plan: the full validator passes after every step exactly when no step
      orphans a relation. */
  lemma {:induction false} PlanStaysConsistentExact(s: Schema, steps: seq<Primitive>)
    requires Inv(s) && Consistent(s) && Run(s, steps).Ok?
    ensures (forall i :: 0 <= i <= |steps| ==> PassesAfter(s, steps, i)) <==> NeverOrphans(ViewOf(s), steps)
    decreases |steps|
  {
    hide StepCheck, ApplyShadow, Inv, Consistent, Run, ViewOf, Orphans, Admissible;
    assert PassesAfter(s, steps, 0) by { NothingRun(s, steps); }
    if steps != [] {
      var t := ApplyShadow(steps[0], s);
      AcceptedRest(s, steps);
      StepCheckExact(s, steps[0]);
      AdmissibleIsWellFormed(steps[0]);
      StepRefines(s, steps[0]);
      StaysConsistentExact(s, steps[0]);
      forall i | 0 <= i < |steps| ensures PassesAfter(s, steps, i + 1) <==> PassesAfter(t, steps[1..], i) {
        PassesShift(s, steps, i);
      }
      forall j | 0 < j <= |steps| ensures PassesAfter(s, steps, j) <==> PassesAfter(t, steps[1..], j - 1) {
        PassesShift(s, steps, j - 1);
      }
      if Consistent(t) {
        PlanStaysConsistentExact(t, steps[1..]);
      } else {
        NothingRun(t, steps[1..]);
        assert !PassesAfter(s, steps, 0 + 1);
      }
    }
  }

  lemma NothingRun(s: Schema, steps: seq<Primitive>)
    ensures PassesAfter(s, steps, 0) <==> Consistent(s)
  {
    assert steps[..0] == [];
    assert RunFrom(StepCheck, ApplyShadow, s, [], 0) == Ok(s);
  }

  lemma AdmissibleIsWellFormed(p: Primitive)
    requires Admissible(p)
    ensures WellFormed(p)
  {
  }

  // ----- a step inside one model -----

  lemma MapStepEdit(v: View, p: Primitive)
    requires (FieldLevel(p) || RelationLevel(p)) && WellFormed(p) && OwnModel(p) in v
    ensures MapStep(v, p) == v[OwnModel(p) := EditView(v[OwnModel(p)], p)]
  {
  }

  lemma EnabledExact(v: View, p: Primitive)
    requires (FieldLevel(p) || RelationLevel(p)) && OwnModel(p) in v
    ensures Enabled(v, p) <==> EditObjections(v[OwnModel(p)], p) == [] && (p.AddRelation? ==> p.to in v)
  {
  }
}
