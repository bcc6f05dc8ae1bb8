/** The schema document and its validator, and the export of the admin registry. */
module SchemaDocument {
  import opened Wrappers
  import opened Keyed

  const SCHEMA_VERSION: nat := 2

  const VALID_TYPE_NAMES: seq<string> := ["i32", "i64", "String", "bool", "DateTime"]

  predicate ValidType(ty: string) { ty in VALID_TYPE_NAMES }

  datatype RelationKind = BelongsTo | HasMany {
    function AsStr(): string { if BelongsTo? then "belongs_to" else "has_many" }
  }

  /** The foreign-key annotation of a field. */
  datatype Relation = Relation(
    model: string, field: string, kind: RelationKind,
    display_field: Option<string>, required: Option<bool>, on_delete: Option<string>)

  datatype SchemaField = SchemaField(
    name: string, ty: string, nullable: bool, editable: bool, relation: Option<Relation>)

  datatype SchemaRelation = SchemaRelation(kind: string, to: string, via: string)

  datatype SchemaModel = SchemaModel(
    name: string, table: string, admin_name: string, display_name: string, singular_name: string,
    fields: seq<SchemaField>, relations: seq<SchemaRelation>, core: bool)

  datatype Schema = Schema(version: nat, rustio_version: string, models: seq<SchemaModel>)

  function ModelName(m: SchemaModel): string { m.name }
  function FieldName(f: SchemaField): string { f.name }
  function RelationVia(r: SchemaRelation): string { r.via }

  datatype SchemaError =
    | VersionMismatch(found: nat, expected: nat)
    | DuplicateModel(model: string)
    | DuplicateField(model: string, field: string)
    | InvalidType(model: string, field: string, ty: string)
    | UnknownRelationTarget(from: string, to: string)
    | EmptyIdentifier(which: string)

  // ----- what a consistent document is -----

  ghost predicate ConsistentModel(m: SchemaModel, names: set<string>) {
    && (forall f :: f in m.fields ==> f.name != "" && ValidType(f.ty))
    && Distinct(m.fields, FieldName)
    && (forall r :: r in m.relations ==> r.to in names)
  }

  ghost function Names(models: seq<SchemaModel>): set<string> {
    set m | m in models :: m.name
  }

  ghost predicate Consistent(s: Schema) {
    && s.version == SCHEMA_VERSION
    && (forall m :: m in s.models ==> m.name != "" && m.table != "")
    && Distinct(s.models, ModelName)
    && (forall m :: m in s.models ==> ConsistentModel(m, Names(s.models)))
  }

  // ----- every problem of a document, in document order -----

  function IdentityProblems(ms: seq<SchemaModel>, n: nat): (ps: seq<SchemaError>)
    requires n <= |ms|
  {
    if n == 0 then [] else
      var m := ms[n - 1];
      IdentityProblems(ms, n - 1)
      + (if m.name == "" then [EmptyIdentifier("model name")] else [])
      + (if m.table == "" then [EmptyIdentifier("model table")] else [])
      + (if exists j :: 0 <= j < n - 1 && ms[j].name == m.name then [DuplicateModel(m.name)] else [])
  }

  function FieldProblems(m: SchemaModel, n: nat): seq<SchemaError>
    requires n <= |m.fields|
  {
    if n == 0 then [] else
      var f := m.fields[n - 1];
      FieldProblems(m, n - 1)
      + (if f.name == "" then [EmptyIdentifier("field name")] else [])
      + (if exists j :: 0 <= j < n - 1 && m.fields[j].name == f.name
         then [DuplicateField(m.name, f.name)] else [])
      + (if !ValidType(f.ty) then [InvalidType(m.name, f.name, f.ty)] else [])
  }

  function TargetProblems(m: SchemaModel, names: set<string>, n: nat): seq<SchemaError>
    requires n <= |m.relations|
  {
    if n == 0 then [] else
      TargetProblems(m, names, n - 1)
      + (if m.relations[n - 1].to !in names
         then [UnknownRelationTarget(m.name, m.relations[n - 1].to)] else [])
  }

  ghost function BodyProblems(ms: seq<SchemaModel>, names: set<string>, n: nat): seq<SchemaError>
    requires n <= |ms|
  {
    if n == 0 then [] else
      BodyProblems(ms, names, n - 1)
      + FieldProblems(ms[n - 1], |ms[n - 1].fields|)
      + TargetProblems(ms[n - 1], names, |ms[n - 1].relations|)
  }

  ghost function Problems(s: Schema): seq<SchemaError> {
    (if s.version != SCHEMA_VERSION then [VersionMismatch(s.version, SCHEMA_VERSION)] else [])
    + IdentityProblems(s.models, |s.models|)
    + BodyProblems(s.models, Names(s.models), |s.models|)
  }

  lemma {:induction false} IdentityPrefix(ms: seq<SchemaModel>, n: nat, k: nat)
    requires n <= k <= |ms|
    ensures IdentityProblems(ms, n) <= IdentityProblems(ms, k)
  {
    if n < k { IdentityPrefix(ms, n, k - 1); }
  }

  lemma {:induction false} FieldPrefix(m: SchemaModel, n: nat, k: nat)
    requires n <= k <= |m.fields|
    ensures FieldProblems(m, n) <= FieldProblems(m, k)
  {
    if n < k { FieldPrefix(m, n, k - 1); }
  }

  lemma {:induction false} TargetPrefix(m: SchemaModel, names: set<string>, n: nat, k: nat)
    requires n <= k <= |m.relations|
    ensures TargetProblems(m, names, n) <= TargetProblems(m, names, k)
  {
    if n < k { TargetPrefix(m, names, n, k - 1); }
  }

  lemma {:induction false} BodyPrefix(ms: seq<SchemaModel>, names: set<string>, n: nat, k: nat)
    requires n <= k <= |ms|
    ensures BodyProblems(ms, names, n) <= BodyProblems(ms, names, k)
  {
    if n < k { BodyPrefix(ms, names, n, k - 1); }
  }

  lemma {:induction false} NoIdentityProblems(ms: seq<SchemaModel>, n: nat)
    requires n <= |ms|
    ensures IdentityProblems(ms, n) == [] <==>
      && (forall i :: 0 <= i < n ==> ms[i].name != "" && ms[i].table != "")
      && (forall i, j :: 0 <= i < j < n ==> ms[i].name != ms[j].name)
  {
    if n > 0 { NoIdentityProblems(ms, n - 1); }
  }

  lemma {:induction false} NoFieldProblems(m: SchemaModel, n: nat)
    requires n <= |m.fields|
    ensures FieldProblems(m, n) == [] <==>
      && (forall i :: 0 <= i < n ==> m.fields[i].name != "" && ValidType(m.fields[i].ty))
      && (forall i, j :: 0 <= i < j < n ==> m.fields[i].name != m.fields[j].name)
  {
    if n > 0 { NoFieldProblems(m, n - 1); }
  }

  lemma {:induction false} NoTargetProblems(m: SchemaModel, names: set<string>, n: nat)
    requires n <= |m.relations|
    ensures TargetProblems(m, names, n) == [] <==> forall i :: 0 <= i < n ==> m.relations[i].to in names
  {
    if n > 0 { NoTargetProblems(m, names, n - 1); }
  }

  lemma {:induction false} NoBodyProblems(ms: seq<SchemaModel>, names: set<string>, n: nat)
    requires n <= |ms|
    ensures BodyProblems(ms, names, n) == [] <==> forall i :: 0 <= i < n ==> ConsistentModel(ms[i], names)
  {
    if n > 0 {
      NoBodyProblems(ms, names, n - 1);
      NoModelProblems(ms[n - 1], names);
    }
  }

  lemma NoModelProblems(m: SchemaModel, names: set<string>)
    ensures ConsistentModel(m, names) <==>
      FieldProblems(m, |m.fields|) == [] && TargetProblems(m, names, |m.relations|) == []
  {
    NoFieldProblems(m, |m.fields|);
    NoTargetProblems(m, names, |m.relations|);
  }

  lemma NoIdentities(ms: seq<SchemaModel>)
    ensures IdentityProblems(ms, |ms|) == [] <==>
      (forall m :: m in ms ==> m.name != "" && m.table != "") && Distinct(ms, ModelName)
  {
    NoIdentityProblems(ms, |ms|);
    hide IdentityProblems;
    assert (forall m :: m in ms ==> m.name != "" && m.table != "") <==>
      forall i :: 0 <= i < |ms| ==> ms[i].name != "" && ms[i].table != "";
  }

  lemma NoBodies(ms: seq<SchemaModel>, names: set<string>)
    ensures BodyProblems(ms, names, |ms|) == [] <==> forall m :: m in ms ==> ConsistentModel(m, names)
  {
    NoBodyProblems(ms, names, |ms|);
    hide BodyProblems, ConsistentModel;
  }

  /** A document has no problem exactly when it is consistent. */
  lemma NoProblems(s: Schema)
    ensures Problems(s) == [] <==> Consistent(s)
  {
    NoIdentities(s.models);
    NoBodies(s.models, Names(s.models));
    hide IdentityProblems, BodyProblems, ConsistentModel, Distinct;
  }

  // ----- the validator -----

  /** The pass over the model identities: it stops at the first problem, and otherwise returns
      the set of names it collected. */
  method CheckIdentities(ms: seq<SchemaModel>) returns (r: Result<set<string>, SchemaError>)
    ensures IdentityProblems(ms, |ms|) == [] ==> r == Ok(Names(ms))
    ensures IdentityProblems(ms, |ms|) != [] ==> r == Err(IdentityProblems(ms, |ms|)[0])
  {
    var seen: set<string> := {};
    for i := 0 to |ms|
      invariant IdentityProblems(ms, i) == []
      invariant seen == set j | 0 <= j < i :: ms[j].name
    {
      IdentityPrefix(ms, i + 1, |ms|);
      if ms[i].name == "" { return Err(EmptyIdentifier("model name")); }
      if ms[i].table == "" { return Err(EmptyIdentifier("model table")); }
      if ms[i].name in seen { return Err(DuplicateModel(ms[i].name)); }
      seen := seen + {ms[i].name};
    }
    assert seen == Names(ms);
    return Ok(seen);
  }

  method CheckFields(m: SchemaModel) returns (r: Option<SchemaError>)
    ensures r == if FieldProblems(m, |m.fields|) == [] then None
                 else Some(FieldProblems(m, |m.fields|)[0])
  {
    var seen: set<string> := {};
    for i := 0 to |m.fields|
      invariant FieldProblems(m, i) == []
      invariant seen == set j | 0 <= j < i :: m.fields[j].name
    {
      FieldPrefix(m, i + 1, |m.fields|);
      var field := m.fields[i];
      if field.name == "" { return Some(EmptyIdentifier("field name")); }
      if field.name in seen { return Some(DuplicateField(m.name, field.name)); }
      seen := seen + {field.name};
      if !ValidType(field.ty) { return Some(InvalidType(m.name, field.name, field.ty)); }
    }
    return None;
  }

  method CheckTargets(m: SchemaModel, names: set<string>) returns (r: Option<SchemaError>)
    ensures r == if TargetProblems(m, names, |m.relations|) == [] then None
                 else Some(TargetProblems(m, names, |m.relations|)[0])
  {
    for i := 0 to |m.relations|
      invariant TargetProblems(m, names, i) == []
    {
      TargetPrefix(m, names, i + 1, |m.relations|);
      if m.relations[i].to !in names {
        return Some(UnknownRelationTarget(m.name, m.relations[i].to));
      }
    }
    return None;
  }

  method CheckBodies(ms: seq<SchemaModel>, names: set<string>) returns (r: Option<SchemaError>)
    ensures r == if BodyProblems(ms, names, |ms|) == [] then None
                 else Some(BodyProblems(ms, names, |ms|)[0])
  {
    hide FieldProblems, TargetProblems;
    for i := 0 to |ms|
      invariant BodyProblems(ms, names, i) == []
    {
      BodyPrefix(ms, names, i + 1, |ms|);
      r := CheckFields(ms[i]);
      if r.Some? { return; }
      r := CheckTargets(ms[i], names);
      if r.Some? { return; }
    }
    return None;
  }

  /** `Schema::validate`: accepts exactly the consistent documents, and otherwise returns the
      first problem in document order. */
  method Validate(s: Schema) returns (r: Result<(), SchemaError>)
    ensures r == if Problems(s) == [] then Ok(()) else Err(Problems(s)[0])
    ensures r.Ok? <==> Consistent(s)
  {
    NoProblems(s);
    if s.version != SCHEMA_VERSION { return Err(VersionMismatch(s.version, SCHEMA_VERSION)); }
    var ids := CheckIdentities(s.models);
    if ids.Err? { return Err(ids.error); }
    var bad := CheckBodies(s.models, ids.value);
    return if bad.Some? then Err(bad.value) else Ok(());
  }

  // ----- lookups -----

  /** `Schema::relation_for`. */
  function RelationFor(s: Schema, model: string, field: string): Option<Relation> {
    match Find(s.models, ModelName, model)
    case None => None
    case Some(m) =>
      match Find(m.fields, FieldName, field)
      case None => None
      case Some(f) => f.relation
  }

  datatype IncomingRelation = IncomingRelation(
    from_model: string, from_field: string, to_model: string, kind: RelationKind)

  predicate PointsAt(f: SchemaField, target: string) {
    f.relation.Some? && f.relation.value.model == target && f.relation.value.kind.BelongsTo?
  }

  ghost function IncomingOf(m: SchemaModel, target: string, n: nat): seq<IncomingRelation>
    requires n <= |m.fields|
  {
    if n == 0 then [] else
      IncomingOf(m, target, n - 1)
      + if PointsAt(m.fields[n - 1], target)
        then [IncomingRelation(m.name, m.fields[n - 1].name, target, HasMany)] else []
  }

  ghost function Incoming(ms: seq<SchemaModel>, target: string, n: nat): seq<IncomingRelation>
    requires n <= |ms|
  {
    if n == 0 then [] else
      Incoming(ms, target, n - 1) + IncomingOf(ms[n - 1], target, |ms[n - 1].fields|)
  }

  /** `Schema::incoming_relations`: model order, then field order inside the model. */
  method IncomingRelations(s: Schema, target: string) returns (out: seq<IncomingRelation>)
    ensures out == Incoming(s.models, target, |s.models|)
  {
    out := [];
    for i := 0 to |s.models|
      invariant out == Incoming(s.models, target, i)
    {
      var m := s.models[i];
      for j := 0 to |m.fields|
        invariant out == Incoming(s.models, target, i) + IncomingOf(m, target, j)
      {
        var f := m.fields[j];
        if f.relation.Some? {
          var rel := f.relation.value;
          if rel.model == target && rel.kind.BelongsTo? {
            out := out + [IncomingRelation(m.name, f.name, target, HasMany)];
          }
        }
      }
    }
  }

  lemma {:induction false} IncomingOfElements(m: SchemaModel, target: string, n: nat, x: IncomingRelation)
    requires n <= |m.fields|
    ensures x in IncomingOf(m, target, n) <==>
      exists j :: 0 <= j < n && PointsAt(m.fields[j], target)
        && x == IncomingRelation(m.name, m.fields[j].name, target, HasMany)
  {
    if n > 0 { IncomingOfElements(m, target, n - 1, x); }
  }

  lemma {:induction false} IncomingElements(ms: seq<SchemaModel>, target: string, n: nat, x: IncomingRelation)
    requires n <= |ms|
    ensures x in Incoming(ms, target, n) <==>
      exists i :: 0 <= i < n && x in IncomingOf(ms[i], target, |ms[i].fields|)
  {
    if n > 0 { IncomingElements(ms, target, n - 1, x); }
  }

  lemma IncomingOfIsInverse(m: SchemaModel, target: string, field: string)
    requires Distinct(m.fields, FieldName)
    ensures IncomingRelation(m.name, field, target, HasMany) in IncomingOf(m, target, |m.fields|) <==>
      var f := Find(m.fields, FieldName, field);
      f.Some? && PointsAt(f.value, target)
  {
    IncomingOfElements(m, target, |m.fields|, IncomingRelation(m.name, field, target, HasMany));
    FindElement(m.fields, FieldName, field);
  }

  /** Lookups by name are unambiguous. */
  ghost predicate DistinctNames(s: Schema) {
    Distinct(s.models, ModelName) && forall m :: m in s.models ==> Distinct(m.fields, FieldName)
  }

  /** Where names are distinct, as in every consistent document, the incoming relations of `target`
      are exactly the pairs whose `relation_for` is a `belongs_to` on `target`. */
  lemma IncomingIsInverse(s: Schema, target: string, model: string, field: string)
    requires DistinctNames(s)
    ensures IncomingRelation(model, field, target, HasMany) in Incoming(s.models, target, |s.models|) <==>
      var r := RelationFor(s, model, field);
      r.Some? && r.value.model == target && r.value.kind == BelongsTo
  {
    var x := IncomingRelation(model, field, target, HasMany);
    IncomingElements(s.models, target, |s.models|, x);
    FindElement(s.models, ModelName, model);
    forall m | m in s.models
      ensures x in IncomingOf(m, target, |m.fields|) ==> Find(s.models, ModelName, model) == Some(m)
    {
      IncomingOfElements(m, target, |m.fields|, x);
      FindIsIndex(s.models, ModelName, m.name);
    }
    match Find(s.models, ModelName, model)
    case None =>
    case Some(m) => IncomingOfIsInverse(m, target, field);
  }

  // ----- export of the admin registry -----

  datatype FieldType = I32 | I64 | String | Bool | DateTime

  datatype AdminRelation = AdminRelation(kind: RelationKind, model: string, display_field: Option<string>)

  datatype AdminField = AdminField(
    name: string, ty: FieldType, editable: bool, nullable: bool, relation: Option<AdminRelation>)

  datatype AdminEntry = AdminEntry(
    admin_name: string, display_name: string, singular_name: string, table: string,
    fields: seq<AdminField>, core: bool)

  function AdminFieldName(f: AdminField): string { f.name }
  function EntryName(e: AdminEntry): string { e.singular_name }

  function FieldTypeName(ty: FieldType): string {
    match ty
    case I32 => "i32"
    case I64 => "i64"
    case String => "String"
    case Bool => "bool"
    case DateTime => "DateTime"
  }

  function FromAdminField(f: AdminField): SchemaField {
    SchemaField(f.name, FieldTypeName(f.ty), f.nullable, f.editable,
      match f.relation
      case None => None
      case Some(r) => Some(Relation(r.model, "id", r.kind, r.display_field, None, None)))
  }

  function MapSeq<A, B>(s: seq<A>, f: A -> B): (t: seq<B>)
    ensures |t| == |s| && forall i :: 0 <= i < |s| ==> t[i] == f(s[i])
  {
    seq(|s|, i requires 0 <= i < |s| => f(s[i]))
  }

  function FromEntry(e: AdminEntry): SchemaModel {
    SchemaModel(e.singular_name, e.table, e.admin_name, e.display_name, e.singular_name,
      SortBy(MapSeq(e.fields, FromAdminField), FieldName), [], e.core)
  }

  /** `Schema::from_admin`; `crateVersion` is the compile-time package version. */
  function FromAdmin(entries: seq<AdminEntry>, crateVersion: string): Schema {
    Schema(SCHEMA_VERSION, crateVersion, SortBy(MapSeq(entries, FromEntry), ModelName))
  }

  /** Equal but for the order of the fields. */
  ghost predicate SameEntry(a: AdminEntry, b: AdminEntry) {
    a.(fields := []) == b.(fields := []) && SameElements(a.fields, b.fields)
  }

  lemma FieldOrderIrrelevant(a: AdminEntry, b: AdminEntry)
    requires SameEntry(a, b)
    requires Distinct(a.fields, AdminFieldName) && Distinct(b.fields, AdminFieldName)
    ensures FromEntry(a) == FromEntry(b)
  {
    var s, t := MapSeq(a.fields, FromAdminField), MapSeq(b.fields, FromAdminField);
    forall x ensures x in s <==> x in t {
      if x in s { var i :| 0 <= i < |s| && s[i] == x; assert a.fields[i] in b.fields; }
      if x in t { var i :| 0 <= i < |t| && t[i] == x; assert b.fields[i] in a.fields; }
    }
    assert Distinct(s, FieldName) by {
      assert forall i :: 0 <= i < |s| ==> FieldName(s[i]) == AdminFieldName(a.fields[i]);
    }
    assert Distinct(t, FieldName) by {
      assert forall i :: 0 <= i < |t| ==> FieldName(t[i]) == AdminFieldName(b.fields[i]);
    }
    SortIgnoresOrder(s, t, FieldName);
    assert a.singular_name == a.(fields := []).singular_name && a.table == a.(fields := []).table
      && a.admin_name == a.(fields := []).admin_name && a.display_name == a.(fields := []).display_name
      && a.core == a.(fields := []).core;
  }

  ghost predicate WellKeyed(entries: seq<AdminEntry>) {
    Distinct(entries, EntryName) && forall e :: e in entries ==> Distinct(e.fields, AdminFieldName)
  }

  /** Each entry of `xs` is registered in `ys` too, up to the order of its fields. */
  ghost predicate Covers(xs: seq<AdminEntry>, ys: seq<AdminEntry>) {
    forall x :: x in xs ==> exists y :: y in ys && SameEntry(x, y)
  }

  lemma CoveredModels(xs: seq<AdminEntry>, ys: seq<AdminEntry>, m: SchemaModel)
    requires WellKeyed(xs) && WellKeyed(ys) && Covers(xs, ys)
    requires m in MapSeq(xs, FromEntry)
    ensures m in MapSeq(ys, FromEntry)
  {
    var i :| 0 <= i < |xs| && MapSeq(xs, FromEntry)[i] == m;
    assert xs[i] in xs;
    var y :| y in ys && SameEntry(xs[i], y);
    FieldOrderIrrelevant(xs[i], y);
    var j :| 0 <= j < |ys| && ys[j] == y;
    assert MapSeq(ys, FromEntry)[j] == m;
  }

  lemma ExportedDistinct(xs: seq<AdminEntry>)
    ensures Distinct(MapSeq(xs, FromEntry), ModelName) <==> Distinct(xs, EntryName)
  {
  }

  /** The determinism contract: neither the registration order of the entries nor the order of
      the fields inside them shows in the exported schema. */
  lemma FromAdminIgnoresOrder(xs: seq<AdminEntry>, ys: seq<AdminEntry>, v: string)
    requires WellKeyed(xs) && WellKeyed(ys) && Covers(xs, ys) && Covers(ys, xs)
    ensures FromAdmin(xs, v) == FromAdmin(ys, v)
  {
    var s, t := MapSeq(xs, FromEntry), MapSeq(ys, FromEntry);
    forall m ensures m in s <==> m in t {
      if m in s { CoveredModels(xs, ys, m); }
      if m in t { CoveredModels(ys, xs, m); }
    }
    ExportedDistinct(xs);
    ExportedDistinct(ys);
    SortIgnoresOrder(s, t, ModelName);
  }

  ghost predicate Exportable(entries: seq<AdminEntry>) {
    && WellKeyed(entries)
    && (forall e :: e in entries ==> e.singular_name != "" && e.table != "")
    && (forall e, f :: e in entries && f in e.fields ==> f.name != "")
  }

  lemma ExportedTypes(e: AdminEntry)
    ensures forall f :: f in MapSeq(e.fields, FromAdminField) ==> ValidType(f.ty)
  {
  }

  lemma ExportedNames(e: AdminEntry)
    ensures var s := MapSeq(e.fields, FromAdminField);
      && (Distinct(s, FieldName) <==> Distinct(e.fields, AdminFieldName))
      && ((forall f :: f in s ==> f.name != "") <==> forall f :: f in e.fields ==> f.name != "")
  {
  }

  lemma EntryConsistent(e: AdminEntry, names: set<string>)
    ensures ConsistentModel(FromEntry(e), names) <==>
      Distinct(e.fields, AdminFieldName) && forall f :: f in e.fields ==> f.name != ""
  {
    var s := MapSeq(e.fields, FromAdminField);
    ExportedTypes(e);
    ExportedNames(e);
    hide ValidType, FromAdminField, Distinct;
    SortDistinct(s, FieldName);
    SortPermutes(s, FieldName);
    PermutedElements(SortBy(s, FieldName), s);
  }

  /** The exported schema passes the validator exactly when the registry's names are distinct
      and nothing is left empty. */
  lemma FromAdminValidates(entries: seq<AdminEntry>, v: string)
    ensures Consistent(FromAdmin(entries, v)) <==> Exportable(entries)
  {
    var s := MapSeq(entries, FromEntry);
    var t := SortBy(s, ModelName);
    var names := Names(t);
    SortDistinct(s, ModelName);
    SortPermutes(s, ModelName);
    PermutedElements(t, s);
    ExportedDistinct(entries);
    if Consistent(FromAdmin(entries, v)) {
      forall e | e in entries
        ensures e.singular_name != "" && e.table != "" && Distinct(e.fields, AdminFieldName)
        ensures forall f :: f in e.fields ==> f.name != ""
      {
        var i :| 0 <= i < |entries| && entries[i] == e;
        assert s[i] in t by { assert s[i] in s; }
        EntryConsistent(e, names);
      }
    }
    if Exportable(entries) {
      forall m | m in t ensures m.name != "" && m.table != "" && ConsistentModel(m, names) {
        assert m in s;
        var i :| 0 <= i < |s| && s[i] == m;
        assert entries[i] in entries;
        EntryConsistent(entries[i], names);
      }
    }
  }
}
