/** What the exported schema says of the registered entries and fields, read back by lookup. */
module SchemaExport {
  import opened Wrappers
  import opened Keyed
  import opened SchemaDocument

  /** The model carries the entry's names and flag, and has no relations of its own. */
  ghost predicate Describes(m: SchemaModel, e: AdminEntry) {
    && m.name == e.singular_name && m.singular_name == e.singular_name && m.table == e.table
    && m.admin_name == e.admin_name && m.display_name == e.display_name && m.core == e.core
    && m.relations == []
  }

  /** The field carries the admin field's name, flags, type and foreign key. */
  ghost predicate DescribesField(g: SchemaField, f: AdminField) {
    && g.name == f.name && g.nullable == f.nullable && g.editable == f.editable
    && TypeOf(g.ty) == Some(f.ty)
    && (g.relation.Some? <==> f.relation.Some?)
    && (f.relation.Some? ==> DescribesRelation(g.relation.value, f.relation.value))
  }

  /** The foreign key points at the `id` of the same model, with the same kind and display field. */
  ghost predicate DescribesRelation(r: Relation, a: AdminRelation) {
    && r.model == a.model && r.kind == a.kind && r.display_field == a.display_field
    && r.field == "id" && r.required == None && r.on_delete == None
  }

  /** The type a name in the document stands for. */
  function TypeOf(name: string): Option<FieldType> {
    if name == "i32" then Some(I32)
    else if name == "i64" then Some(I64)
    else if name == "String" then Some(FieldType.String)
    else if name == "bool" then Some(Bool)
    else if name == "DateTime" then Some(DateTime)
    else None
  }

  /** The names the document uses for types are those the validator knows, and no two types share one. */
  lemma TypeNamesExact(ty: string)
    ensures ValidType(ty) <==> TypeOf(ty).Some?
    ensures ValidType(ty) <==> exists t: FieldType :: FieldTypeName(t) == ty
    ensures forall t: FieldType :: FieldTypeName(t) == ty <==> TypeOf(ty) == Some(t)
  {
    forall t: FieldType ensures FieldTypeName(t) == ty <==> TypeOf(ty) == Some(t) {
      assert "i32"[1] != "i64"[1];
    }
    TypeNameOf(ty);
  }

  lemma TypeNameOf(ty: string)
    ensures ValidType(ty) <==> ty in {"i32", "i64", "String", "bool", "DateTime"}
    ensures TypeOf(ty).Some? ==> FieldTypeName(TypeOf(ty).value) == ty
  {
    var v := VALID_TYPE_NAMES;
    assert v[0] == "i32" && v[1] == "i64" && v[2] == "String" && v[3] == "bool" && v[4] == "DateTime";
  }

  lemma FromEntryDescribes(e: AdminEntry)
    ensures Describes(FromEntry(e), e)
  {
  }

  lemma FromFieldDescribes(f: AdminField)
    ensures DescribesField(FromAdminField(f), f)
  {
    TypeNamesExact(FieldTypeName(f.ty));
  }

  lemma ExportedModel(entries: seq<AdminEntry>, v: string, e: AdminEntry)
    requires WellKeyed(entries) && e in entries
    ensures Find(FromAdmin(entries, v).models, ModelName, e.singular_name) == Some(FromEntry(e))
  {
    var s := MapSeq(entries, FromEntry);
    ExportedDistinct(entries);
    SortSorts(s, ModelName);
    var i :| 0 <= i < |entries| && entries[i] == e;
    assert s[i] in s && ModelName(s[i]) == e.singular_name;
    FindIsIndex(SortBy(s, ModelName), ModelName, e.singular_name);
  }

  lemma ExportedFieldOf(e: AdminEntry, f: AdminField)
    requires Distinct(e.fields, AdminFieldName) && f in e.fields
    ensures Find(FromEntry(e).fields, FieldName, f.name) == Some(FromAdminField(f))
  {
    var s := MapSeq(e.fields, FromAdminField);
    ExportedNames(e);
    SortSorts(s, FieldName);
    var i :| 0 <= i < |e.fields| && e.fields[i] == f;
    assert s[i] in s && FieldName(s[i]) == f.name;
    FindIsIndex(SortBy(s, FieldName), FieldName, f.name);
  }

  /** Every registered entry and field is found under its name and described as registered. */
  lemma ExportedField(entries: seq<AdminEntry>, v: string, e: AdminEntry, f: AdminField)
    requires WellKeyed(entries) && e in entries && f in e.fields
    ensures var m := Find(FromAdmin(entries, v).models, ModelName, e.singular_name);
      && m.Some? && Describes(m.value, e)
      && var g := Find(m.value.fields, FieldName, f.name); g.Some? && DescribesField(g.value, f)
  {
    ExportedModel(entries, v, e);
    ExportedFieldOf(e, f);
    FromEntryDescribes(e);
    FromFieldDescribes(f);
  }

  /** The foreign key of a registered field is found, and only where one was registered. */
  lemma ExportedRelation(entries: seq<AdminEntry>, v: string, e: AdminEntry, f: AdminField)
    requires WellKeyed(entries) && e in entries && f in e.fields
    ensures var r := RelationFor(FromAdmin(entries, v), e.singular_name, f.name);
      && (r.Some? <==> f.relation.Some?)
      && (r.Some? ==> DescribesRelation(r.value, f.relation.value))
  {
    hide FromAdmin, FromEntry, FromAdminField;
    ExportedModel(entries, v, e);
    ExportedFieldOf(e, f);
    FromFieldDescribes(f);
  }

  /** Nothing else is exported: as many models as entries, each with as many fields as its entry, and
      each of them registered. */
  lemma NothingElseExported(entries: seq<AdminEntry>, v: string)
    ensures |FromAdmin(entries, v).models| == |entries|
    ensures forall m :: m in FromAdmin(entries, v).models ==> exists e :: e in entries && ExportOf(m, e)
  {
    var s := MapSeq(entries, FromEntry);
    SortPermutes(s, ModelName);
    PermutedElements(SortBy(s, ModelName), s);
    assert |SortBy(s, ModelName)| == |multiset(SortBy(s, ModelName))| == |multiset(s)| == |s|;
    forall m | m in FromAdmin(entries, v).models ensures exists e :: e in entries && ExportOf(m, e) {
      assert m in s;
      var i :| 0 <= i < |s| && s[i] == m;
      EntryExport(entries[i]);
    }
  }

  ghost predicate ExportOf(m: SchemaModel, e: AdminEntry) {
    && Describes(m, e) && |m.fields| == |e.fields|
    && forall g :: g in m.fields ==> exists f :: f in e.fields && DescribesField(g, f)
  }

  lemma EntryExport(e: AdminEntry)
    ensures ExportOf(FromEntry(e), e)
  {
    var s := MapSeq(e.fields, FromAdminField);
    FromEntryDescribes(e);
    SortPermutes(s, FieldName);
    PermutedElements(SortBy(s, FieldName), s);
    assert |SortBy(s, FieldName)| == |multiset(SortBy(s, FieldName))| == |multiset(s)| == |s|;
    forall g | g in SortBy(s, FieldName) ensures exists f :: f in e.fields && DescribesField(g, f) {
      assert g in s;
      var i :| 0 <= i < |s| && s[i] == g;
      FromFieldDescribes(e.fields[i]);
      assert e.fields[i] in e.fields;
    }
  }

  ghost predicate Registered(entries: seq<AdminEntry>, model: string, field: string, target: string) {
    exists e, f :: RegisteredAs(entries, e, f, model, field, target)
  }

  ghost predicate RegisteredAs(entries: seq<AdminEntry>, e: AdminEntry, f: AdminField, model: string,
                               field: string, target: string) {
    && e in entries && f in e.fields && e.singular_name == model && f.name == field
    && f.relation.Some? && f.relation.value.model == target && f.relation.value.kind == BelongsTo
  }

  lemma ExportHasDistinctNames(entries: seq<AdminEntry>, v: string)
    requires WellKeyed(entries)
    ensures DistinctNames(FromAdmin(entries, v))
  {
    var s := MapSeq(entries, FromEntry);
    ExportedDistinct(entries);
    SortSorts(s, ModelName);
    forall m | m in SortBy(s, ModelName) ensures Distinct(m.fields, FieldName) {
      assert m in s;
      var i :| 0 <= i < |s| && s[i] == m;
      assert entries[i] in entries;
      ExportedNames(entries[i]);
      SortSorts(MapSeq(entries[i].fields, FromAdminField), FieldName);
    }
  }

  /** A lookup that finds a relation finds a registered one. */
  lemma FoundIsRegistered(entries: seq<AdminEntry>, v: string, model: string, field: string)
    requires WellKeyed(entries) && RelationFor(FromAdmin(entries, v), model, field).Some?
    ensures exists e, f :: e in entries && f in e.fields && e.singular_name == model && f.name == field
  {
    var s := FromAdmin(entries, v);
    var m := Find(s.models, ModelName, model).value;
    var g := Find(m.fields, FieldName, field).value;
    FindElement(s.models, ModelName, model);
    FindElement(m.fields, FieldName, field);
    NothingElseExported(entries, v);
    var e :| e in entries && ExportOf(m, e);
    var f :| f in e.fields && DescribesField(g, f);
    assert e.singular_name == model && f.name == field;
  }

  /** The incoming relations of a model are exactly the registered `belongs_to` fields on it. */
  lemma IncomingExported(entries: seq<AdminEntry>, v: string, target: string, model: string, field: string)
    requires WellKeyed(entries)
    ensures var s := FromAdmin(entries, v);
      IncomingRelation(model, field, target, HasMany) in Incoming(s.models, target, |s.models|) <==>
      Registered(entries, model, field, target)
  {
    ExportHasDistinctNames(entries, v);
    var s := FromAdmin(entries, v);
    hide FromAdmin, Incoming;
    IncomingIsInverse(s, target, model, field);
    if Registered(entries, model, field, target) {
      var e, f :| RegisteredAs(entries, e, f, model, field, target);
      ExportedRelation(entries, v, e, f);
    }
    if RelationFor(s, model, field).Some? {
      FoundIsRegistered(entries, v, model, field);
      var e, f :| e in entries && f in e.fields && e.singular_name == model && f.name == field;
      ExportedRelation(entries, v, e, f);
      assert RegisteredAs(entries, e, f, model, field, target) <==>
        f.relation.Some? && f.relation.value.model == target && f.relation.value.kind == BelongsTo;
    }
  }
}
