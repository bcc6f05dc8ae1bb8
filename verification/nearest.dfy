/** Offering the closest model name for one that was mistyped. */
module Nearest {
  import opened Wrappers
  import opened Text
  import opened SchemaDocument
  import ED = EditDistance

  /** One edit for short names, two for longer ones; the length is in bytes. */
  function Budget(h: string): nat { if Utf8Len(h) <= 4 then 1 else 2 }

  /** The least distance of a model's four spellings; `lower` is `str::to_lowercase`. */
  ghost function ModelDistance(lower: string -> string, h: string, m: SchemaModel): nat {
    ED.Min(ED.Min(ED.Lev(h, lower(m.name)), ED.Lev(h, lower(m.table))),
           ED.Min(ED.Lev(h, lower(m.admin_name)), ED.Lev(h, lower(m.singular_name))))
  }

  /** `i` is the first of the non-core models at the least distance among the first `n`. */
  ghost predicate FirstNearest(lower: string -> string, h: string, models: seq<SchemaModel>, n: nat, i: nat)
    requires n <= |models|
  {
    && i < n && !models[i].core
    && (forall j :: 0 <= j < n && !models[j].core ==>
          ModelDistance(lower, h, models[i]) <= ModelDistance(lower, h, models[j]))
    && (forall j :: 0 <= j < i && !models[j].core ==>
          ModelDistance(lower, h, models[i]) < ModelDistance(lower, h, models[j]))
  }

  /** Some model of the project has a spelling within that many edits of the hint. */
  ghost predicate SomeWithin(lower: string -> string, h: string, models: seq<SchemaModel>, edits: nat) {
    exists m :: m in models && !m.core && Spelled(lower, h, m, edits)
  }

  ghost predicate Spelled(lower: string -> string, h: string, m: SchemaModel, edits: nat) {
    || ED.Lev(h, lower(m.name)) <= edits || ED.Lev(h, lower(m.table)) <= edits
    || ED.Lev(h, lower(m.admin_name)) <= edits || ED.Lev(h, lower(m.singular_name)) <= edits
  }

  lemma DistanceIsLeast(lower: string -> string, h: string, m: SchemaModel, edits: nat)
    ensures ModelDistance(lower, h, m) <= edits <==> Spelled(lower, h, m, edits)
  {
  }

  lemma WithinBudget(lower: string -> string, h: string, models: seq<SchemaModel>)
    ensures SomeWithin(lower, h, models, Budget(h)) <==>
      exists m :: m in models && !m.core && ModelDistance(lower, h, m) <= Budget(h)
    ensures Budget(h) == if Utf8Len(h) <= 4 then 1 else 2
    ensures h == "" <==> Utf8Len(h) == 0
  {
    forall m ensures ModelDistance(lower, h, m) <= Budget(h) <==> Spelled(lower, h, m, Budget(h)) {
      DistanceIsLeast(lower, h, m, Budget(h));
    }
  }

  method SpellingDistance(lower: string -> string, h: string, m: SchemaModel) returns (d: nat)
    ensures d == ModelDistance(lower, h, m)
  {
    var d0 := ED.Distance(h, lower(m.name));
    var d1 := ED.Distance(h, lower(m.table));
    var d2 := ED.Distance(h, lower(m.admin_name));
    var d3 := ED.Distance(h, lower(m.singular_name));
    d := ED.Min(ED.Min(d0, d1), ED.Min(d2, d3));
  }

  /** `nearest_model_name`: the first non-core model at the least distance, when that distance is
      within the budget; nothing exactly when the hint is blank or no such model is within it. */
  method NearestModelName(lower: string -> string, models: seq<SchemaModel>, hint: string)
    returns (r: Option<string>)
    ensures var h := lower(Trim(hint));
      && (r.Some? ==> h != "" && exists i: nat ::
            && FirstNearest(lower, h, models, |models|, i)
            && ModelDistance(lower, h, models[i]) <= Budget(h) && r.value == models[i].name)
      && (r.None? <==> h == "" || forall m :: m in models && !m.core ==> ModelDistance(lower, h, m) > Budget(h))
    ensures var h := lower(Trim(hint));
      h != "" && Utf8Len(h) <= 4 ==> (r.Some? <==> SomeWithin(lower, h, models, 1))
    ensures var h := lower(Trim(hint));
      Utf8Len(h) > 4 ==> (r.Some? <==> SomeWithin(lower, h, models, 2))
  {
    hide ModelDistance, Budget, SomeWithin, Utf8Len;
    var h := lower(Trim(hint));
    WithinBudget(lower, h, models);
    if h == "" { return None; }
    var best: Option<(nat, string)> := None;
    ghost var at: nat := 0;
    for n := 0 to |models|
      invariant best.None? ==> forall j :: 0 <= j < n ==> models[j].core
      invariant best.Some? ==>
        && FirstNearest(lower, h, models, n, at)
        && best.value == (ModelDistance(lower, h, models[at]), models[at].name)
    {
      var m := models[n];
      if m.core { continue; }
      var distance := SpellingDistance(lower, h, m);
      if best.None? || distance < best.value.0 {
        best := Some((distance, m.name));
        at := n;
      }
    }
    if best.Some? && best.value.0 <= Budget(h) {
      assert models[at] in models;
      return Some(best.value.1);
    }
    forall m | m in models && !m.core ensures ModelDistance(lower, h, m) > Budget(h) {
      var j :| 0 <= j < |models| && models[j] == m;
    }
    return None;
  }

  /** A name the project really has is always offered back, unless an earlier model has a spelling
      that matches it too. */
  lemma ExactNameIsNearest(lower: string -> string, models: seq<SchemaModel>, h: string, i: nat)
    requires i < |models| && !models[i].core && lower(models[i].name) == h
    requires forall j :: 0 <= j < i && !models[j].core ==>
      h !in {lower(models[j].name), lower(models[j].table), lower(models[j].admin_name), lower(models[j].singular_name)}
    ensures FirstNearest(lower, h, models, |models|, i) && ModelDistance(lower, h, models[i]) == 0
  {
    ED.ZeroExact(h, h);
    forall j | 0 <= j < i && !models[j].core ensures ModelDistance(lower, h, models[j]) > 0 {
      var m := models[j];
      ED.ZeroExact(h, lower(m.name));
      ED.ZeroExact(h, lower(m.table));
      ED.ZeroExact(h, lower(m.admin_name));
      ED.ZeroExact(h, lower(m.singular_name));
    }
  }
}
