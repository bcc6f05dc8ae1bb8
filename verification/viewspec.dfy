/** The view document of one model: its validator, the default view derived from the schema, and the
    labels it resolves. */
module ViewSpecs {
  import opened Wrappers
  import opened Keyed
  import opened Order
  import opened SchemaDocument

  const VIEWSPEC_VERSION: nat := 1

  datatype ViewLayout = Table | List | Cards | Compact

  datatype FieldRole = Title | Subtitle | Badge | Timestamp | Meta | Hidden

  datatype ViewField = ViewField(source: string, role: FieldRole, merge: Option<seq<string>>, filterable: bool)

  /** By language. */
  type Labels = map<string, string>

  datatype ViewSpec = ViewSpec(
    version: nat, model: string, layout: ViewLayout, fields: seq<ViewField>, filters: seq<string>,
    default_language: string, labels: map<string, Labels>, value_labels: map<string, map<string, Labels>>)

  datatype Identifier = ModelId | SourceId | LanguageId

  datatype ViewSpecError =
    | VersionMismatch(found: nat, expected: nat)
    | EmptyIdentifier(which: Identifier)
    | NoFields
    | DuplicateSource(source: string)
    | NonFilterableFilter(name: string)
    | MergeTooShort(source: string, len: nat)
    | UnknownLabelSource(source: string)
    | EmptyLabelLanguage(source: string)
    | EmptyLabel(source: string, lang: string)
    | UnknownValueLabelSource(source: string)
    | EmptyValueLabelValue(source: string)
    | EmptyValueLabelLanguage(source: string, value: string)
    | EmptyValueLabel(source: string, value: string, lang: string)

  function Source(f: ViewField): string { f.source }

  // ----- what a valid view is -----

  ghost predicate GoodField(f: ViewField) {
    f.source != "" && (f.merge.Some? ==> |f.merge.value| >= 2)
  }

  ghost predicate GoodLabels(l: Labels) { forall lang :: lang in l ==> lang != "" && l[lang] != "" }

  ghost predicate GoodValueLabels(vs: map<string, Labels>) {
    forall v :: v in vs ==> v != "" && GoodLabels(vs[v])
  }

  ghost predicate FilterKnown(fields: seq<ViewField>, name: string) {
    exists f :: f in fields && f.source == name && f.filterable
  }

  ghost predicate Good(s: ViewSpec) {
    && s.version >= 1 && s.model != "" && s.fields != [] && s.default_language != ""
    && Distinct(s.fields, Source) && (forall f :: f in s.fields ==> GoodField(f))
    && (forall name :: name in s.filters ==> FilterKnown(s.fields, name))
    && (forall src :: src in s.labels ==> HasKey(s.fields, Source, src) && GoodLabels(s.labels[src]))
    && (forall src :: src in s.value_labels ==>
          HasKey(s.fields, Source, src) && GoodValueLabels(s.value_labels[src]))
  }

  // ----- every problem of a view, in document order -----

  function FieldIssues(fields: seq<ViewField>, n: nat): seq<ViewSpecError>
    requires n <= |fields|
  {
    if n == 0 then [] else
      var f := fields[n - 1];
      FieldIssues(fields, n - 1)
      + (if f.source == "" then [ViewSpecError.EmptyIdentifier(SourceId)] else [])
      + (if exists j :: 0 <= j < n - 1 && fields[j].source == f.source then [DuplicateSource(f.source)] else [])
      + (if f.merge.Some? && |f.merge.value| < 2 then [MergeTooShort(f.source, |f.merge.value|)] else [])
  }

  ghost function FilterIssues(fields: seq<ViewField>, filters: seq<string>, n: nat): seq<ViewSpecError>
    requires n <= |filters|
  {
    if n == 0 then [] else
      FilterIssues(fields, filters, n - 1)
      + if !FilterKnown(fields, filters[n - 1]) then [NonFilterableFilter(filters[n - 1])] else []
  }

  /** What a language map belongs to: a source, or one value of a source. */
  datatype Owner = OfSource(source: string) | OfValue(source: string, value: string) {
    function NoLanguage(): ViewSpecError {
      if OfSource? then EmptyLabelLanguage(source) else EmptyValueLabelLanguage(source, value)
    }
    function NoLabel(lang: string): ViewSpecError {
      if OfSource? then EmptyLabel(source, lang) else EmptyValueLabel(source, value, lang)
    }
  }

  ghost function LanguageIssues(o: Owner, l: Labels, langs: seq<string>): seq<ViewSpecError>
    requires forall lang :: lang in langs ==> lang in l
  {
    if langs == [] then [] else
      (if langs[0] == "" then [o.NoLanguage()] else [])
      + (if l[langs[0]] == "" then [o.NoLabel(langs[0])] else [])
      + LanguageIssues(o, l, langs[1..])
  }

  ghost function MapIssues(o: Owner, l: Labels): seq<ViewSpecError> { LanguageIssues(o, l, Ascending(l.Keys)) }

  ghost function LabelIssues(labels: map<string, Labels>, seen: set<string>, srcs: seq<string>): seq<ViewSpecError>
    requires forall src :: src in srcs ==> src in labels
  {
    if srcs == [] then [] else
      (if srcs[0] !in seen then [UnknownLabelSource(srcs[0])] else [])
      + MapIssues(OfSource(srcs[0]), labels[srcs[0]])
      + LabelIssues(labels, seen, srcs[1..])
  }

  ghost function ValueIssues(src: string, values: map<string, Labels>, vs: seq<string>): seq<ViewSpecError>
    requires forall v :: v in vs ==> v in values
  {
    if vs == [] then [] else
      (if vs[0] == "" then [EmptyValueLabelValue(src)] else [])
      + MapIssues(OfValue(src, vs[0]), values[vs[0]])
      + ValueIssues(src, values, vs[1..])
  }

  ghost function ValueLabelIssues(labels: map<string, map<string, Labels>>, seen: set<string>, srcs: seq<string>)
    : seq<ViewSpecError>
    requires forall src :: src in srcs ==> src in labels
  {
    if srcs == [] then [] else
      (if srcs[0] !in seen then [UnknownValueLabelSource(srcs[0])] else [])
      + ValueIssues(srcs[0], labels[srcs[0]], Ascending(labels[srcs[0]].Keys))
      + ValueLabelIssues(labels, seen, srcs[1..])
  }

  ghost function Sources(fields: seq<ViewField>): set<string> { set f | f in fields :: f.source }

  ghost function Issues(s: ViewSpec): seq<ViewSpecError> {
    (if s.version < 1 then [ViewSpecError.VersionMismatch(s.version, VIEWSPEC_VERSION)] else [])
    + (if s.model == "" then [ViewSpecError.EmptyIdentifier(ModelId)] else [])
    + (if s.fields == [] then [NoFields] else [])
    + FieldIssues(s.fields, |s.fields|)
    + FilterIssues(s.fields, s.filters, |s.filters|)
    + (if s.default_language == "" then [ViewSpecError.EmptyIdentifier(LanguageId)] else [])
    + LabelIssues(s.labels, Sources(s.fields), Ascending(s.labels.Keys))
    + ValueLabelIssues(s.value_labels, Sources(s.fields), Ascending(s.value_labels.Keys))
  }

  // ----- a valid view is one without problems -----

  lemma {:induction false} NoFieldIssues(fields: seq<ViewField>, n: nat)
    requires n <= |fields|
    ensures FieldIssues(fields, n) == [] <==>
      && (forall i :: 0 <= i < n ==> GoodField(fields[i]))
      && (forall i, j :: 0 <= i < j < n ==> fields[i].source != fields[j].source)
  {
    if n > 0 { NoFieldIssues(fields, n - 1); }
  }

  lemma FieldsClean(fields: seq<ViewField>)
    ensures FieldIssues(fields, |fields|) == [] <==>
      Distinct(fields, Source) && forall f :: f in fields ==> GoodField(f)
  {
    NoFieldIssues(fields, |fields|);
    hide FieldIssues, GoodField;
    assert (forall f :: f in fields ==> GoodField(f)) <==> forall i :: 0 <= i < |fields| ==> GoodField(fields[i]);
  }

  lemma {:induction false} FieldIssuesPrefix(fields: seq<ViewField>, n: nat, k: nat)
    requires n <= k <= |fields|
    ensures FieldIssues(fields, n) <= FieldIssues(fields, k)
  {
    if n < k { FieldIssuesPrefix(fields, n, k - 1); }
  }

  lemma {:induction false} FiltersClean(fields: seq<ViewField>, filters: seq<string>, n: nat)
    requires n <= |filters|
    ensures FilterIssues(fields, filters, n) == [] <==> forall i :: 0 <= i < n ==> FilterKnown(fields, filters[i])
  {
    if n > 0 { FiltersClean(fields, filters, n - 1); }
  }

  lemma {:induction false} FilterIssuesPrefix(fields: seq<ViewField>, filters: seq<string>, n: nat, k: nat)
    requires n <= k <= |filters|
    ensures FilterIssues(fields, filters, n) <= FilterIssues(fields, filters, k)
  {
    if n < k { FilterIssuesPrefix(fields, filters, n, k - 1); }
  }

  lemma {:induction false} LanguagesClean(o: Owner, l: Labels, langs: seq<string>)
    requires forall lang :: lang in langs ==> lang in l
    ensures LanguageIssues(o, l, langs) == [] <==> forall lang :: lang in langs ==> lang != "" && l[lang] != ""
  {
    if langs != [] { LanguagesClean(o, l, langs[1..]); assert langs == [langs[0]] + langs[1..]; }
  }

  lemma MapClean(o: Owner, l: Labels)
    ensures MapIssues(o, l) == [] <==> GoodLabels(l)
  {
    LanguagesClean(o, l, Ascending(l.Keys));
  }

  lemma {:induction false} LabelsClean(labels: map<string, Labels>, seen: set<string>, srcs: seq<string>)
    requires forall src :: src in srcs ==> src in labels
    ensures LabelIssues(labels, seen, srcs) == [] <==>
      forall src :: src in srcs ==> src in seen && GoodLabels(labels[src])
  {
    hide GoodLabels, MapIssues;
    if srcs != [] {
      LabelsClean(labels, seen, srcs[1..]);
      MapClean(OfSource(srcs[0]), labels[srcs[0]]);
      assert srcs == [srcs[0]] + srcs[1..];
    }
  }

  lemma {:induction false} ValuesClean(src: string, values: map<string, Labels>, vs: seq<string>)
    requires forall v :: v in vs ==> v in values
    ensures ValueIssues(src, values, vs) == [] <==> forall v :: v in vs ==> v != "" && GoodLabels(values[v])
  {
    hide GoodLabels, MapIssues;
    if vs != [] {
      ValuesClean(src, values, vs[1..]);
      MapClean(OfValue(src, vs[0]), values[vs[0]]);
      assert vs == [vs[0]] + vs[1..];
    }
  }

  lemma {:induction false} ValueLabelsClean(
    labels: map<string, map<string, Labels>>, seen: set<string>, srcs: seq<string>)
    requires forall src :: src in srcs ==> src in labels
    ensures ValueLabelIssues(labels, seen, srcs) == [] <==>
      forall src :: src in srcs ==> src in seen && GoodValueLabels(labels[src])
  {
    hide GoodLabels, ValueIssues;
    if srcs != [] {
      ValueLabelsClean(labels, seen, srcs[1..]);
      ValuesClean(srcs[0], labels[srcs[0]], Ascending(labels[srcs[0]].Keys));
      assert srcs == [srcs[0]] + srcs[1..];
    }
  }

  lemma SourcesAreKeys(fields: seq<ViewField>, x: string)
    ensures x in Sources(fields) <==> HasKey(fields, Source, x)
  {
  }

  lemma FiltersOk(fields: seq<ViewField>, filters: seq<string>)
    ensures FilterIssues(fields, filters, |filters|) == [] <==>
      forall name :: name in filters ==> FilterKnown(fields, name)
  {
    FiltersClean(fields, filters, |filters|);
    hide FilterIssues, FilterKnown;
  }

  lemma LabelMapOk(fields: seq<ViewField>, labels: map<string, Labels>)
    ensures LabelIssues(labels, Sources(fields), Ascending(labels.Keys)) == [] <==>
      forall src :: src in labels ==> HasKey(fields, Source, src) && GoodLabels(labels[src])
  {
    LabelsClean(labels, Sources(fields), Ascending(labels.Keys));
    hide LabelIssues, GoodLabels, Sources, HasKey;
    forall x ensures x in Sources(fields) <==> HasKey(fields, Source, x) { SourcesAreKeys(fields, x); }
  }

  lemma ValueLabelMapOk(fields: seq<ViewField>, labels: map<string, map<string, Labels>>)
    ensures ValueLabelIssues(labels, Sources(fields), Ascending(labels.Keys)) == [] <==>
      forall src :: src in labels ==> HasKey(fields, Source, src) && GoodValueLabels(labels[src])
  {
    ValueLabelsClean(labels, Sources(fields), Ascending(labels.Keys));
    hide ValueLabelIssues, GoodValueLabels, Sources, HasKey;
    forall x ensures x in Sources(fields) <==> HasKey(fields, Source, x) { SourcesAreKeys(fields, x); }
  }

  /** A view has no problem exactly when it is good. */
  lemma NoIssues(s: ViewSpec)
    ensures Issues(s) == [] <==> Good(s)
  {
    hide FieldIssues, FilterIssues, LabelIssues, ValueLabelIssues, GoodLabels, GoodValueLabels, FilterKnown,
         Sources, HasKey, Distinct, GoodField, Ascending;
    FieldsClean(s.fields);
    FiltersOk(s.fields, s.filters);
    LabelMapOk(s.fields, s.labels);
    ValueLabelMapOk(s.fields, s.value_labels);
  }

  // ----- the validator -----

  ghost function First(issues: seq<ViewSpecError>): Option<ViewSpecError> {
    if issues == [] then None else Some(issues[0])
  }

  datatype FieldSets = FieldSets(sources: set<string>, filterable: set<string>)

  /** The pass over the fields: the sources seen, and those that may filter. */
  method CheckSources(fields: seq<ViewField>) returns (r: Result<FieldSets, ViewSpecError>)
    ensures r.Ok? <==> FieldIssues(fields, |fields|) == []
    ensures r.Err? ==> r.error == FieldIssues(fields, |fields|)[0]
    ensures r.Ok? ==> r.value.sources == Sources(fields)
    ensures r.Ok? ==> forall x :: x in r.value.filterable <==> FilterKnown(fields, x)
  {
    var seen: set<string>, filterable: set<string> := {}, {};
    for i := 0 to |fields|
      invariant FieldIssues(fields, i) == []
      invariant seen == set j | 0 <= j < i :: fields[j].source
      invariant filterable == set j | 0 <= j < i && fields[j].filterable :: fields[j].source
    {
      FieldIssuesPrefix(fields, i + 1, |fields|);
      var f := fields[i];
      if f.source == "" { return Err(ViewSpecError.EmptyIdentifier(SourceId)); }
      if f.source in seen { return Err(DuplicateSource(f.source)); }
      seen := seen + {f.source};
      if f.merge.Some? && |f.merge.value| < 2 { return Err(MergeTooShort(f.source, |f.merge.value|)); }
      if f.filterable { filterable := filterable + {f.source}; }
    }
    assert seen == Sources(fields);
    forall x ensures x in filterable <==> FilterKnown(fields, x) {
      if FilterKnown(fields, x) {
        var f :| f in fields && f.source == x && f.filterable;
        var j :| 0 <= j < |fields| && fields[j] == f;
      }
    }
    return Ok(FieldSets(seen, filterable));
  }

  method CheckFilters(fields: seq<ViewField>, filters: seq<string>, filterable: set<string>)
    returns (r: Option<ViewSpecError>)
    requires forall x :: x in filterable <==> FilterKnown(fields, x)
    ensures r == First(FilterIssues(fields, filters, |filters|))
  {
    hide FilterKnown;
    for i := 0 to |filters|
      invariant FilterIssues(fields, filters, i) == []
    {
      FilterIssuesPrefix(fields, filters, i + 1, |filters|);
      if filters[i] !in filterable { return Some(NonFilterableFilter(filters[i])); }
    }
    return None;
  }

  /** One language map, in key order. */
  method CheckLabels(o: Owner, l: Labels) returns (r: Option<ViewSpecError>)
    ensures r == First(MapIssues(o, l))
  {
    var todo := l.Keys;
    while todo != {}
      invariant todo <= l.Keys
      invariant LanguageIssues(o, l, Ascending(todo)) == MapIssues(o, l)
      decreases |todo|
    {
      var lang := Least(todo);
      AscendingStep(todo, lang);
      todo := todo - {lang};
      if lang == "" { return Some(o.NoLanguage()); }
      if l[lang] == "" { return Some(o.NoLabel(lang)); }
    }
    return None;
  }

  lemma LabelStep(labels: map<string, Labels>, seen: set<string>, todo: set<string>, src: string)
    requires IsLeast(src, todo) && todo <= labels.Keys
    ensures LabelIssues(labels, seen, Ascending(todo)) ==
      (if src !in seen then [UnknownLabelSource(src)] else [])
      + MapIssues(OfSource(src), labels[src])
      + LabelIssues(labels, seen, Ascending(todo - {src}))
  {
    hide MapIssues;
    AscendingStep(todo, src);
  }

  lemma ValueStep(src: string, values: map<string, Labels>, todo: set<string>, v: string)
    requires IsLeast(v, todo) && todo <= values.Keys
    ensures ValueIssues(src, values, Ascending(todo)) ==
      (if v == "" then [EmptyValueLabelValue(src)] else [])
      + MapIssues(OfValue(src, v), values[v])
      + ValueIssues(src, values, Ascending(todo - {v}))
  {
    hide MapIssues;
    AscendingStep(todo, v);
  }

  lemma ValueLabelStep(labels: map<string, map<string, Labels>>, seen: set<string>, todo: set<string>, src: string)
    requires IsLeast(src, todo) && todo <= labels.Keys
    ensures ValueLabelIssues(labels, seen, Ascending(todo)) ==
      (if src !in seen then [UnknownValueLabelSource(src)] else [])
      + ValueIssues(src, labels[src], Ascending(labels[src].Keys))
      + ValueLabelIssues(labels, seen, Ascending(todo - {src}))
  {
    hide ValueIssues;
    AscendingStep(todo, src);
  }

  method CheckLabelMap(labels: map<string, Labels>, seen: set<string>) returns (r: Option<ViewSpecError>)
    ensures r == First(LabelIssues(labels, seen, Ascending(labels.Keys)))
  {
    assert LabelIssues(labels, seen, []) == [] && Ascending({}) == [];
    hide MapIssues, LabelIssues, Ascending;
    var todo := labels.Keys;
    while todo != {}
      invariant todo <= labels.Keys
      invariant LabelIssues(labels, seen, Ascending(todo)) == LabelIssues(labels, seen, Ascending(labels.Keys))
      decreases |todo|
    {
      var src := Least(todo);
      LabelStep(labels, seen, todo, src);
      todo := todo - {src};
      if src !in seen { return Some(UnknownLabelSource(src)); }
      r := CheckLabels(OfSource(src), labels[src]);
      if r.Some? { return; }
    }
    return None;
  }

  method CheckValues(src: string, values: map<string, Labels>) returns (r: Option<ViewSpecError>)
    ensures r == First(ValueIssues(src, values, Ascending(values.Keys)))
  {
    assert ValueIssues(src, values, []) == [] && Ascending({}) == [];
    hide MapIssues, ValueIssues, Ascending;
    var todo := values.Keys;
    while todo != {}
      invariant todo <= values.Keys
      invariant ValueIssues(src, values, Ascending(todo)) == ValueIssues(src, values, Ascending(values.Keys))
      decreases |todo|
    {
      var v := Least(todo);
      ValueStep(src, values, todo, v);
      todo := todo - {v};
      if v == "" { return Some(EmptyValueLabelValue(src)); }
      r := CheckLabels(OfValue(src, v), values[v]);
      if r.Some? { return; }
    }
    return None;
  }

  method CheckValueLabelMap(labels: map<string, map<string, Labels>>, seen: set<string>)
    returns (r: Option<ViewSpecError>)
    ensures r == First(ValueLabelIssues(labels, seen, Ascending(labels.Keys)))
  {
    assert ValueLabelIssues(labels, seen, []) == [] && Ascending({}) == [];
    hide ValueIssues, ValueLabelIssues, Ascending;
    var todo := labels.Keys;
    while todo != {}
      invariant todo <= labels.Keys
      invariant ValueLabelIssues(labels, seen, Ascending(todo)) ==
        ValueLabelIssues(labels, seen, Ascending(labels.Keys))
      decreases |todo|
    {
      var src := Least(todo);
      ValueLabelStep(labels, seen, todo, src);
      todo := todo - {src};
      if src !in seen { return Some(UnknownValueLabelSource(src)); }
      r := CheckValues(src, labels[src]);
      if r.Some? { return; }
    }
    return None;
  }

  /** `ViewSpec::validate`: accepts exactly the good views, and otherwise returns the first problem
      in document order. */
  method Validate(s: ViewSpec) returns (r: Result<(), ViewSpecError>)
    ensures r == if Issues(s) == [] then Ok(()) else Err(Issues(s)[0])
    ensures r.Ok? <==> Good(s)
  {
    NoIssues(s);
    hide FieldIssues, FilterIssues, LabelIssues, ValueLabelIssues, FilterKnown, Good;
    if s.version < 1 { return Err(ViewSpecError.VersionMismatch(s.version, VIEWSPEC_VERSION)); }
    if s.model == "" { return Err(ViewSpecError.EmptyIdentifier(ModelId)); }
    if s.fields == [] { return Err(NoFields); }
    var sources := CheckSources(s.fields);
    if sources.Err? { return Err(sources.error); }
    var bad := CheckFilters(s.fields, s.filters, sources.value.filterable);
    if bad.Some? { return Err(bad.value); }
    if s.default_language == "" { return Err(ViewSpecError.EmptyIdentifier(LanguageId)); }
    bad := CheckLabelMap(s.labels, sources.value.sources);
    if bad.Some? { return Err(bad.value); }
    bad := CheckValueLabelMap(s.value_labels, sources.value.sources);
    if bad.Some? { return Err(bad.value); }
    return Ok(());
  }

  // ----- labels -----

  /** `label_for`: the requested language, then the view's default. */
  function LabelFor(s: ViewSpec, source: string, lang: string): Option<string> {
    if source !in s.labels then None
    else if lang in s.labels[source] then Some(s.labels[source][lang])
    else if s.default_language in s.labels[source] then Some(s.labels[source][s.default_language])
    else None
  }

  ghost predicate Translated(s: ViewSpec, source: string, lang: string) {
    source in s.labels && lang in s.labels[source]
  }

  function AsciiUpper(c: char): char { if 'a' <= c <= 'z' then c - ('a' - 'A') else c }

  /** The character `humanize` writes for position `i`. */
  function HumanChar(source: string, i: nat): char
    requires i < |source|
  {
    if source[i] == '_' then ' '
    else if i == 0 || source[i - 1] == '_' then AsciiUpper(source[i])
    else source[i]
  }

  /** A lower-case letter at the start of a word becomes the capital; an underscore, a space; and every
      other character stays. */
  lemma HumanCharExact(source: string, i: nat)
    requires i < |source|
    ensures var starts := i == 0 || source[i - 1] == '_';
      && (HumanChar(source, i) != source[i] <==> source[i] == '_' || (starts && 'a' <= source[i] <= 'z'))
      && (source[i] == '_' ==> HumanChar(source, i) == ' ')
      && (starts && 'a' <= source[i] <= 'z' ==> HumanChar(source, i) + ' ' == source[i])
  {
  }

  method Humanize(source: string) returns (out: string)
    ensures |out| == |source| && forall i :: 0 <= i < |source| ==> out[i] == HumanChar(source, i)
  {
    out := "";
    var nextUpper := true;
    for i := 0 to |source|
      invariant |out| == i && forall j :: 0 <= j < i ==> out[j] == HumanChar(source, j)
      invariant nextUpper <==> i == 0 || source[i - 1] == '_'
    {
      if source[i] == '_' {
        out := out + [' '];
        nextUpper := true;
      } else if nextUpper {
        out := out + [AsciiUpper(source[i])];
        nextUpper := false;
      } else {
        out := out + [source[i]];
      }
    }
  }

  /** `label`: in a good view it is empty only for the empty source. */
  method Label(s: ViewSpec, source: string, lang: string) returns (out: string)
    ensures Translated(s, source, lang) ==> out == s.labels[source][lang]
    ensures !Translated(s, source, lang) && Translated(s, source, s.default_language) ==>
      out == s.labels[source][s.default_language]
    ensures !Translated(s, source, lang) && !Translated(s, source, s.default_language) ==>
      |out| == |source| && forall i :: 0 <= i < |source| ==> out[i] == HumanChar(source, i)
    ensures Good(s) ==> (out == "" <==> source == "")
  {
    var stored := LabelFor(s, source, lang);
    if stored.Some? {
      out := stored.value;
      if Good(s) { LabelsAreNonempty(s, source, lang); }
    } else {
      out := Humanize(source);
    }
  }

  lemma LabelsAreNonempty(s: ViewSpec, source: string, lang: string)
    requires Good(s) && LabelFor(s, source, lang).Some?
    ensures LabelFor(s, source, lang).value != "" && source != ""
  {
    assert HasKey(s.fields, Source, source) && GoodLabels(s.labels[source]);
    var i :| 0 <= i < |s.fields| && Source(s.fields[i]) == source;
    assert s.fields[i] in s.fields;
  }

  // ----- the derived view -----

  predicate EndsWith(s: string, suffix: string) {
    |s| >= |suffix| && s[|s| - |suffix|..] == suffix
  }

  predicate Contains(s: string, part: string) {
    exists i :: 0 <= i <= |s| && OccursAt(s, part, i)
  }

  predicate OccursAt(s: string, part: string, i: nat)
    requires i <= |s|
  {
    |s| - i >= |part| && s[i..i + |part|] == part
  }

  predicate IsSecretName(name: string) {
    EndsWith(name, "_hash") || Contains(name, "password") || Contains(name, "secret") || Contains(name, "token")
  }

  predicate IsOpaquePiiName(name: string) {
    name in {"personnummer", "personal_id", "personal_number", "pnr", "fodselsnummer", "patient_id",
             "mrn", "medical_record_number", "ssn"}
  }

  predicate IsStatusName(name: string) { name == "status" || EndsWith(name, "_status") }

  predicate IsId(name: string) { name == "id" }

  predicate IsContactName(name: string) { name == "email" || name == "phone" }

  predicate IsPlainTextName(name: string) {
    !IsSecretName(name) && !IsOpaquePiiName(name) && !IsStatusName(name) && !IsId(name) && !IsContactName(name)
  }

  predicate IsNameLike(name: string) {
    name in {"name", "title", "full_name", "display_name", "label", "username"}
  }

  predicate IsString(ty: string) { ty == "String" }
  predicate IsDateTime(ty: string) { ty == "DateTime" }
  predicate IsBool(ty: string) { ty == "bool" }

  lemma TypesDiffer(ty: string)
    ensures IsString(ty) ==> !IsDateTime(ty) && !IsBool(ty)
  {
  }

  /** Never shown in a derived view. */
  predicate IsHiddenName(name: string) { IsSecretName(name) || IsOpaquePiiName(name) || IsId(name) }

  /** `classify_view_field`; the two last rules of the source give the same answer. */
  function Classify(name: string, ty: string, title: Option<string>, subtitle: Option<string>): (FieldRole, bool) {
    if IsHiddenName(name) then (Hidden, false)
    else if IsDateTime(ty) then (Timestamp, false)
    else if IsStatusName(name) then (Badge, true)
    else if IsBool(ty) then (Badge, false)
    else if IsContactName(name) then (Subtitle, false)
    else if Some(name) == title then (Title, false)
    else if Some(name) == subtitle then (Subtitle, false)
    else (Meta, false)
  }

  /** The first field from `i` on that satisfies `want`. */
  function FirstFrom(fields: seq<SchemaField>, want: SchemaField -> bool, i: nat): Option<nat>
    requires i <= |fields|
    decreases |fields| - i
  {
    if i == |fields| then None else if want(fields[i]) then Some(i) else FirstFrom(fields, want, i + 1)
  }

  function IsHeadline(f: SchemaField): bool { IsString(f.ty) && IsNameLike(f.name) && IsPlainTextName(f.name) }

  function IsPlainText(f: SchemaField): bool { IsString(f.ty) && IsPlainTextName(f.name) }

  function IsPlainRelation(f: SchemaField): bool { f.relation.Some? && !IsId(f.name) && IsPlainTextName(f.name) }

  /** `pick_identity_sources`. */
  function PickIdentity(fields: seq<SchemaField>): (Option<string>, Option<string>) {
    match FirstFrom(fields, IsHeadline, 0)
    case Some(i) => (Named(fields, Some(i)), None)
    case None =>
      match FirstFrom(fields, IsPlainText, 0)
      case Some(i) => (Named(fields, Some(i)), None)
      case None =>
        match FirstFrom(fields, IsPlainRelation, 0)
        case None => (None, None)
        case Some(i) =>
          var next := if i < |fields| then FirstFrom(fields, IsPlainRelation, i + 1) else None;
          (Named(fields, Some(i)), Named(fields, next))
  }

  function Named(fields: seq<SchemaField>, i: Option<nat>): Option<string> {
    if i.Some? && i.value < |fields| then Some(fields[i.value].name) else None
  }

  function DerivedField(f: SchemaField, title: Option<string>, subtitle: Option<string>): ViewField {
    var (role, filterable) := Classify(f.name, f.ty, title, subtitle);
    ViewField(f.name, role, None, filterable)
  }

  /** `from_schema_model`: one view field for each schema field, in order. */
  method FromSchemaModel(m: SchemaModel) returns (s: ViewSpec)
    ensures IsDerived(s, m)
  {
    hide PickIdentity, Classify;
    var (title, subtitle) := PickIdentity(m.fields);
    var fields: seq<ViewField>, filters: seq<string> := [], [];
    for i := 0 to |m.fields|
      invariant |fields| == i && forall j :: 0 <= j < i ==> fields[j] == DerivedField(m.fields[j], title, subtitle)
      invariant filters == FilterNames(fields, i)
    {
      var f := m.fields[i];
      var (role, filterable) := Classify(f.name, f.ty, title, subtitle);
      ghost var before := fields;
      if filterable { filters := filters + [f.name]; }
      fields := fields + [ViewField(f.name, role, None, filterable)];
      FilterPrefix(before, fields, i);
    }
    assert fields == MapSeq(m.fields, f => DerivedField(f, title, subtitle));
    s := ViewSpec(VIEWSPEC_VERSION, m.name, List, fields, filters, "en", map[], map[]);
  }

  /** The sources of the filterable ones among the first `n` fields. */
  ghost function FilterNames(fields: seq<ViewField>, n: nat): seq<string>
    requires n <= |fields|
  {
    if n == 0 then []
    else FilterNames(fields, n - 1) + if fields[n - 1].filterable then [fields[n - 1].source] else []
  }

  lemma {:induction false} FilterPrefix(a: seq<ViewField>, b: seq<ViewField>, n: nat)
    requires n <= |a| <= |b| && a == b[..|a|]
    ensures FilterNames(a, n) == FilterNames(b, n)
  {
    if n > 0 { FilterPrefix(a, b, n - 1); }
  }

  lemma {:induction false} FiltersKnown(fields: seq<ViewField>, n: nat, name: string)
    requires n <= |fields| && name in FilterNames(fields, n)
    ensures FilterKnown(fields, name)
  {
    if name in FilterNames(fields, n - 1) {
      FiltersKnown(fields, n - 1, name);
    } else {
      assert fields[n - 1] in fields;
    }
  }

  /** The view `from_schema_model` returns for `m`. */
  ghost predicate IsDerived(s: ViewSpec, m: SchemaModel) {
    && s.version == VIEWSPEC_VERSION && s.model == m.name && s.layout == List
    && s.default_language == "en" && s.labels == map[] && s.value_labels == map[]
    && (var (title, subtitle) := PickIdentity(m.fields);
        s.fields == MapSeq(m.fields, f => DerivedField(f, title, subtitle)))
    && s.filters == FilterNames(s.fields, |s.fields|)
  }

  /** The derived view passes the validator exactly when the model and all its fields are named, no
      two fields alike, and there is at least one field. */
  lemma DerivedValidExact(s: ViewSpec, m: SchemaModel)
    requires IsDerived(s, m)
    ensures Good(s) <==>
      && m.name != "" && m.fields != []
      && Distinct(m.fields, FieldName) && forall f :: f in m.fields ==> f.name != ""
  {
    assert |s.fields| == |m.fields|;
    assert forall i :: 0 <= i < |s.fields| ==>
      Source(s.fields[i]) == FieldName(m.fields[i]) && s.fields[i].merge == None;
    forall name | name in s.filters ensures FilterKnown(s.fields, name) { FiltersKnown(s.fields, |s.fields|, name); }
    assert s.version == VIEWSPEC_VERSION && s.model == m.name && s.default_language == "en";
    assert s.labels == map[] && s.value_labels == map[];
    hide IsDerived, FilterKnown;
    SameNames(s.fields, m.fields);
  }

  lemma SameNames(vs: seq<ViewField>, fs: seq<SchemaField>)
    requires |vs| == |fs|
    requires forall i :: 0 <= i < |vs| ==> Source(vs[i]) == FieldName(fs[i]) && vs[i].merge == None
    ensures Distinct(vs, Source) <==> Distinct(fs, FieldName)
    ensures (forall f :: f in vs ==> GoodField(f)) <==> forall f :: f in fs ==> f.name != ""
  {
    if forall f :: f in vs ==> GoodField(f) {
      forall f | f in fs ensures f.name != "" {
        var i :| 0 <= i < |fs| && fs[i] == f;
        assert GoodField(vs[i]);
      }
    }
    if forall f :: f in fs ==> f.name != "" {
      forall f | f in vs ensures GoodField(f) {
        var i :| 0 <= i < |vs| && vs[i] == f;
        assert FieldName(fs[i]) != "";
      }
    }
  }

  lemma {:induction false} FirstFromExact(fields: seq<SchemaField>, want: SchemaField -> bool, i: nat)
    requires i <= |fields|
    ensures match FirstFrom(fields, want, i)
      case None => forall j :: i <= j < |fields| ==> !want(fields[j])
      case Some(k) => i <= k < |fields| && want(fields[k]) && forall j :: i <= j < k ==> !want(fields[j])
    decreases |fields| - i
  {
    if i < |fields| && !want(fields[i]) { FirstFromExact(fields, want, i + 1); }
  }

  /** Exactly the secret-shaped, opaque and `id` fields are hidden. */
  lemma HiddenExact(s: ViewSpec, m: SchemaModel, i: nat)
    requires IsDerived(s, m) && i < |m.fields|
    ensures |s.fields| == |m.fields| && s.fields[i].source == m.fields[i].name
    ensures s.fields[i].role == Hidden <==> IsHiddenName(m.fields[i].name)
  {
    hide PickIdentity, DerivedField, IsHiddenName;
    var (title, subtitle) := PickIdentity(m.fields);
    assert s.fields[i] == DerivedField(m.fields[i], title, subtitle);
    HiddenField(m.fields[i], title, subtitle);
  }

  lemma HiddenField(f: SchemaField, title: Option<string>, subtitle: Option<string>)
    ensures DerivedField(f, title, subtitle).source == f.name
    ensures DerivedField(f, title, subtitle).role == Hidden <==> IsHiddenName(f.name)
  {
    hide IsHiddenName;
  }

  /** A field the filter bar offers: a shown status, unless its type makes it a date. */
  predicate OffersFilter(f: SchemaField) {
    IsStatusName(f.name) && !IsHiddenName(f.name) && !IsDateTime(f.ty)
  }

  lemma {:induction false} FilterNamesExact(fields: seq<ViewField>, n: nat, name: string)
    requires n <= |fields|
    ensures name in FilterNames(fields, n) <==>
      exists i :: 0 <= i < n && fields[i].filterable && fields[i].source == name
  {
    if n > 0 { FilterNamesExact(fields, n - 1, name); }
  }

  lemma FilterableExact(f: SchemaField, title: Option<string>, subtitle: Option<string>)
    ensures DerivedField(f, title, subtitle).filterable <==> OffersFilter(f)
    ensures DerivedField(f, title, subtitle).source == f.name
  {
  }

  /** The filter bar lists exactly the shown status fields. */
  lemma FiltersExact(s: ViewSpec, m: SchemaModel, name: string)
    requires IsDerived(s, m)
    ensures name in s.filters <==>
      exists i :: 0 <= i < |m.fields| && OffersFilter(m.fields[i]) && m.fields[i].name == name
  {
    hide PickIdentity, DerivedField, OffersFilter;
    var (title, subtitle) := PickIdentity(m.fields);
    FilterNamesExact(s.fields, |s.fields|, name);
    forall i | 0 <= i < |m.fields|
      ensures s.fields[i].filterable <==> OffersFilter(m.fields[i])
      ensures s.fields[i].source == m.fields[i].name
    {
      assert s.fields[i] == DerivedField(m.fields[i], title, subtitle);
      FilterableExact(m.fields[i], title, subtitle);
    }
  }

  // ----- which field heads the view -----

  ghost predicate FirstSuch(fields: seq<SchemaField>, want: SchemaField -> bool, i: nat) {
    i < |fields| && want(fields[i]) && forall j :: 0 <= j < i ==> !want(fields[j])
  }

  ghost predicate NoSuch(fields: seq<SchemaField>, want: SchemaField -> bool) {
    forall i :: 0 <= i < |fields| ==> !want(fields[i])
  }

  /** The first plain String field with a headline name; without one the first plain String field;
      without one the first plain field with a declared relation. */
  ghost predicate Heads(fields: seq<SchemaField>, i: nat) {
    || FirstSuch(fields, IsHeadline, i)
    || (NoSuch(fields, IsHeadline) && FirstSuch(fields, IsPlainText, i))
    || (NoSuch(fields, IsHeadline) && NoSuch(fields, IsPlainText) && FirstSuch(fields, IsPlainRelation, i))
  }

  /** Behind a relation that heads the view, the next plain field with a declared relation. */
  ghost predicate Follows(fields: seq<SchemaField>, t: nat, i: nat) {
    && NoSuch(fields, IsHeadline) && NoSuch(fields, IsPlainText) && FirstSuch(fields, IsPlainRelation, t)
    && t < i < |fields| && IsPlainRelation(fields[i])
    && forall j :: t < j < i ==> !IsPlainRelation(fields[j])
  }

  ghost predicate HeadName(fields: seq<SchemaField>, name: string) {
    exists i: nat :: i < |fields| && Heads(fields, i) && fields[i].name == name
  }

  ghost predicate SecondName(fields: seq<SchemaField>, name: string) {
    exists t: nat, i: nat :: i < |fields| && Follows(fields, t, i) && fields[i].name == name
  }

  lemma FirstIsUnique(fields: seq<SchemaField>, want: SchemaField -> bool, i: nat, j: nat)
    requires FirstSuch(fields, want, i) && FirstSuch(fields, want, j)
    ensures i == j
  {
  }

  lemma HeadsUnique(fields: seq<SchemaField>, i: nat, j: nat)
    requires Heads(fields, i) && Heads(fields, j)
    ensures i == j
  {
  }

  /** The three passes find the field that heads the view, if there is one. */
  lemma PickHeads(fields: seq<SchemaField>)
    ensures PickIdentity(fields).0.Some? ==> HeadName(fields, PickIdentity(fields).0.value)
    ensures PickIdentity(fields).0.None? ==> forall i: nat :: !Heads(fields, i)
  {
    FirstFromExact(fields, IsHeadline, 0);
    FirstFromExact(fields, IsPlainText, 0);
    FirstFromExact(fields, IsPlainRelation, 0);
    hide IsHeadline, IsPlainText, IsPlainRelation;
    var h, p, r := FirstFrom(fields, IsHeadline, 0), FirstFrom(fields, IsPlainText, 0),
                   FirstFrom(fields, IsPlainRelation, 0);
    if h.Some? { assert Heads(fields, h.value); }
    else if p.Some? { assert Heads(fields, p.value); }
    else if r.Some? { assert Heads(fields, r.value); }
  }

  lemma PickFollows(fields: seq<SchemaField>)
    ensures PickIdentity(fields).1.Some? ==> SecondName(fields, PickIdentity(fields).1.value)
    ensures PickIdentity(fields).1.None? ==> forall t: nat, i: nat :: !Follows(fields, t, i)
  {
    FirstFromExact(fields, IsHeadline, 0);
    FirstFromExact(fields, IsPlainText, 0);
    FirstFromExact(fields, IsPlainRelation, 0);
    hide IsHeadline, IsPlainText, IsPlainRelation;
    var r := FirstFrom(fields, IsPlainRelation, 0);
    if NoSuch(fields, IsHeadline) && NoSuch(fields, IsPlainText) && r.Some? {
      FirstFromExact(fields, IsPlainRelation, r.value + 1);
      var n := FirstFrom(fields, IsPlainRelation, r.value + 1);
      if n.Some? { assert Follows(fields, r.value, n.value); }
    }
  }

  lemma FollowsUnique(fields: seq<SchemaField>, t: nat, i: nat, u: nat, j: nat)
    requires Follows(fields, t, i) && Follows(fields, u, j)
    ensures i == j
  {
    FirstIsUnique(fields, IsPlainRelation, t, u);
  }

  /** The picked names, said of the fields alone. */
  lemma PickExact(fields: seq<SchemaField>, name: string)
    ensures PickIdentity(fields).0 == Some(name) <==> HeadName(fields, name)
    ensures PickIdentity(fields).1 == Some(name) <==> SecondName(fields, name)
  {
    PickHeads(fields);
    PickFollows(fields);
    hide Heads, Follows, PickIdentity;
    var (title, subtitle) := PickIdentity(fields);
    if HeadName(fields, name) {
      var i: nat :| i < |fields| && Heads(fields, i) && fields[i].name == name;
      if title.Some? {
        var j: nat :| j < |fields| && Heads(fields, j) && fields[j].name == title.value;
        HeadsUnique(fields, i, j);
      }
    }
    if SecondName(fields, name) {
      var t: nat, i: nat :| i < |fields| && Follows(fields, t, i) && fields[i].name == name;
      if subtitle.Some? {
        var u: nat, j: nat :| j < |fields| && Follows(fields, u, j) && fields[j].name == subtitle.value;
        FollowsUnique(fields, t, i, u, j);
      }
    }
  }

  lemma HeadIsPlain(fields: seq<SchemaField>, name: string)
    requires HeadName(fields, name) || SecondName(fields, name)
    ensures IsPlainTextName(name)
  {
    hide IsPlainTextName;
  }

  /** The roles of a field by its name, its type, and whether it is picked. */
  lemma ClassifiedRole(f: SchemaField, title: Option<string>, subtitle: Option<string>)
    requires Some(f.name) == title || Some(f.name) == subtitle ==> IsPlainTextName(f.name)
    ensures var role := DerivedField(f, title, subtitle).role;
      && (role == Title <==> Some(f.name) == title && !IsDateTime(f.ty) && !IsBool(f.ty))
      && (role == Subtitle <==>
            && !IsHiddenName(f.name) && !IsStatusName(f.name) && !IsDateTime(f.ty) && !IsBool(f.ty)
            && (IsContactName(f.name) || (Some(f.name) == subtitle && Some(f.name) != title)))
      && (role == Timestamp <==> !IsHiddenName(f.name) && IsDateTime(f.ty))
      && (role == Badge <==> !IsHiddenName(f.name) && !IsDateTime(f.ty) && (IsStatusName(f.name) || IsBool(f.ty)))
  {
    hide IsSecretName, IsOpaquePiiName, IsDateTime, IsBool, IsContactName, IsStatusName, IsId;
  }

  /** The field that heads the view, unless its type makes it a badge or a date. */
  ghost predicate Headed(m: SchemaModel, i: nat) {
    && i < |m.fields| && HeadName(m.fields, m.fields[i].name)
    && !IsDateTime(m.fields[i].ty) && !IsBool(m.fields[i].ty)
  }

  lemma RolesExact(s: ViewSpec, m: SchemaModel, i: nat)
    requires IsDerived(s, m) && i < |m.fields|
    ensures |s.fields| == |m.fields|
    ensures var f, role := m.fields[i], s.fields[i].role;
      && (role == Title <==> Headed(m, i))
      && (role == Subtitle <==>
            && !IsHiddenName(f.name) && !IsStatusName(f.name) && !IsDateTime(f.ty) && !IsBool(f.ty)
            && (IsContactName(f.name) || (SecondName(m.fields, f.name) && !HeadName(m.fields, f.name))))
      && (role == Timestamp <==> !IsHiddenName(f.name) && IsDateTime(f.ty))
      && (role == Badge <==> !IsHiddenName(f.name) && !IsDateTime(f.ty) && (IsStatusName(f.name) || IsBool(f.ty)))
  {
    hide PickIdentity, DerivedField, IsPlainTextName, IsHiddenName, IsStatusName, IsContactName, HeadName,
         SecondName;
    var f := m.fields[i];
    var (title, subtitle) := PickIdentity(m.fields);
    PickExact(m.fields, f.name);
    if HeadName(m.fields, f.name) || SecondName(m.fields, f.name) { HeadIsPlain(m.fields, f.name); }
    assert s.fields[i] == DerivedField(f, title, subtitle);
    ClassifiedRole(f, title, subtitle);
  }

  /** The title is the field that heads the view: by the first pass, or else the second, or else the
      third; unless its type makes it a badge or a date. */
  lemma TitleExact(s: ViewSpec, m: SchemaModel, i: nat)
    requires IsDerived(s, m) && i < |m.fields| && Distinct(m.fields, FieldName)
    ensures |s.fields| == |m.fields|
    ensures s.fields[i].role == Title <==>
      Heads(m.fields, i) && !IsDateTime(m.fields[i].ty) && !IsBool(m.fields[i].ty)
  {
    RolesExact(s, m, i);
    hide Heads, IsDerived, IsHiddenName, IsStatusName, IsContactName, SecondName, IsDateTime, IsBool;
    if HeadName(m.fields, m.fields[i].name) {
      var j: nat :| j < |m.fields| && Heads(m.fields, j) && m.fields[j].name == m.fields[i].name;
      assert FieldName(m.fields[i]) == FieldName(m.fields[j]);
    }
  }

  /** At most one title, and one whenever the model has a plain text field. */
  lemma OneTitle(s: ViewSpec, m: SchemaModel)
    requires IsDerived(s, m) && Distinct(m.fields, FieldName)
    ensures |s.fields| == |m.fields|
    ensures forall i, j :: 0 <= i < j < |s.fields| ==> !(s.fields[i].role == Title && s.fields[j].role == Title)
    ensures (exists i :: 0 <= i < |m.fields| && IsPlainText(m.fields[i])) ==>
      exists i :: 0 <= i < |s.fields| && s.fields[i].role == Title
  {
    assert |s.fields| == |m.fields|;
    hide IsDerived, Heads, IsPlainText;
    forall i | 0 <= i < |m.fields|
      ensures s.fields[i].role == Title <==>
        Heads(m.fields, i) && !IsDateTime(m.fields[i].ty) && !IsBool(m.fields[i].ty)
    {
      TitleExact(s, m, i);
    }
    forall i, j | 0 <= i < j < |m.fields| ensures !(Heads(m.fields, i) && Heads(m.fields, j)) {
      if Heads(m.fields, i) && Heads(m.fields, j) { HeadsUnique(m.fields, i, j); }
    }
    if exists i :: 0 <= i < |m.fields| && IsPlainText(m.fields[i]) {
      var i := TextHeads(m.fields);
      TypesDiffer(m.fields[i].ty);
    }
  }

  lemma TextHeads(fields: seq<SchemaField>) returns (i: nat)
    requires exists j :: 0 <= j < |fields| && IsPlainText(fields[j])
    ensures Heads(fields, i) && i < |fields| && IsString(fields[i].ty)
  {
    FirstFromExact(fields, IsHeadline, 0);
    FirstFromExact(fields, IsPlainText, 0);
    var h := FirstFrom(fields, IsHeadline, 0);
    i := if h.Some? then h.value else FirstFrom(fields, IsPlainText, 0).value;
  }

  /** What the default view of any model with fields in a consistent schema is: valid, the fields in
      order, exactly the secret-shaped, opaque and `id` ones hidden, at most one title, and one
      whenever there is a plain text field. */
  lemma DefaultView(schema: Schema, m: SchemaModel, s: ViewSpec)
    requires Consistent(schema) && m in schema.models && m.fields != [] && IsDerived(s, m)
    ensures Good(s) && |s.fields| == |m.fields|
    ensures forall i :: 0 <= i < |m.fields| ==>
      s.fields[i].source == m.fields[i].name && (s.fields[i].role == Hidden <==> IsHiddenName(m.fields[i].name))
    ensures forall i, j :: 0 <= i < j < |s.fields| ==> !(s.fields[i].role == Title && s.fields[j].role == Title)
    ensures (exists i :: 0 <= i < |m.fields| && IsPlainText(m.fields[i])) ==>
      exists i :: 0 <= i < |s.fields| && s.fields[i].role == Title
  {
    assert ConsistentModel(m, Names(schema.models));
    hide IsDerived, PickIdentity, IsHiddenName, IsPlainText, Good;
    DerivedValidExact(s, m);
    OneTitle(s, m);
    forall i | 0 <= i < |m.fields|
      ensures s.fields[i].source == m.fields[i].name
      ensures s.fields[i].role == Hidden <==> IsHiddenName(m.fields[i].name)
    {
      HiddenExact(s, m, i);
    }
  }

  // ----- where the derived view falls short -----

  function OneModel(m: SchemaModel): Schema { Schema(SCHEMA_VERSION, "", [m]) }

  /** A consistent schema may hold a model without fields, whose derived view the validator refuses. */
  lemma FieldlessModel()
    ensures var m := SchemaModel("M", "m", "m", "M", "M", [], [], false);
      Consistent(OneModel(m)) && forall s :: IsDerived(s, m) ==> !Good(s)
  {
    var m := SchemaModel("M", "m", "m", "M", "M", [], [], false);
    forall s | IsDerived(s, m) ensures !Good(s) { DerivedValidExact(s, m); }
  }

  /** A relation picked as title whose type is `bool` is shown as a badge, and the view has no title. */
  lemma FlagPickedAsTitle()
    ensures var f := SchemaField("x", "bool", false, true, Some(Relation("M", "id", BelongsTo, None, None, None)));
      var m := SchemaModel("M", "m", "m", "M", "M", [f], [], false);
      && Consistent(OneModel(m)) && PickIdentity(m.fields).0 == Some("x")
      && forall s :: IsDerived(s, m) ==> |s.fields| == 1 && s.fields[0].role == Badge
  {
    var f := SchemaField("x", "bool", false, true, Some(Relation("M", "id", BelongsTo, None, None, None)));
    var m := SchemaModel("M", "m", "m", "M", "M", [f], [], false);
    FlagRole(f);
    assert ValidType("bool") by { assert VALID_TYPE_NAMES[3] == "bool"; }
    FirstFromExact(m.fields, IsHeadline, 0);
    FirstFromExact(m.fields, IsPlainText, 0);
    FirstFromExact(m.fields, IsPlainRelation, 0);
  }

  lemma FlagRole(f: SchemaField)
    requires f.name == "x" && f.ty == "bool"
    ensures IsPlainTextName(f.name) && !IsId(f.name) && !IsString(f.ty)
    ensures forall t, u :: DerivedField(f, t, u).role == Badge
  {
  }
}
