/** Page templates: named page chrome with catalog defaults and per-request
    overrides (klartex/page_templates.py). The catalog of parsed YAML files is
    a parameter. */
module PageTemplates {
  import opened Wrappers
  import opened Text
  import opened JsonData
  import opened Errors

  const DefaultInclude: string := "_header_standard.jinja"

  /** One page template file as parsed: its `name` and the optional
      `description`, `include` and `defaults` fields. */
  datatype PageTemplateDef = PageTemplateDef(
    name: string,
    description: Option<string>,
    headerInclude: Option<string>,
    defaults: Option<map<string, Json>>)

  /** `PageTemplate`: a resolved page template. */
  datatype PageTemplate = PageTemplate(
    name: string,
    description: string,
    headerInclude: string,
    defaults: map<string, Json>,
    overrides: map<string, Json>)
  {
    /** A flag's value: the caller's override, else the catalog default, else `true`. */
    function Flag(key: string): Json {
      Get(overrides, key, Get(defaults, key, JBool(true)))
    }

    /** The `page_numbers` property. */
    function PageNumbers(): Json {
      Flag("page_numbers")
    }

    /** The `first_page_header` property. */
    function FirstPageHeader(): Json {
      Flag("first_page_header")
    }
  }

  /** A catalog as `_load_all` builds it: every definition filed under its own name. */
  ghost predicate WellFormed(catalog: map<string, PageTemplateDef>) {
    forall k | k in catalog :: catalog[k].name == k
  }

  /** No later definition has the same name as `defs[i]`. */
  ghost predicate LastOfName(defs: seq<PageTemplateDef>, i: nat)
    requires i < |defs|
  {
    forall j | i < j < |defs| :: defs[j].name != defs[i].name
  }

  /** `_load_all`: file the definitions (read in sorted file order) by name; a
      later file with the same name replaces an earlier one. */
  function LoadAll(defs: seq<PageTemplateDef>): (r: map<string, PageTemplateDef>)
    ensures WellFormed(r)
    ensures r.Keys == set i | 0 <= i < |defs| :: defs[i].name
    ensures forall i | 0 <= i < |defs| && LastOfName(defs, i) :: r[defs[i].name] == defs[i]
    decreases |defs|
  {
    if |defs| == 0 then map[]
    else
      var last := defs[|defs| - 1];
      var earlier := LoadAll(defs[..|defs| - 1]);
      LoadAllStep(defs, defs[..|defs| - 1], earlier);
      earlier[last.name := last]
  }

  lemma LoadAllStep(defs: seq<PageTemplateDef>, front: seq<PageTemplateDef>, earlier: map<string, PageTemplateDef>)
    requires |defs| > 0 && front == defs[..|defs| - 1]
    requires earlier.Keys == set i | 0 <= i < |front| :: front[i].name
    requires forall i | 0 <= i < |front| && LastOfName(front, i) :: earlier[front[i].name] == front[i]
    ensures var r := earlier[defs[|defs| - 1].name := defs[|defs| - 1]];
            && r.Keys == (set i | 0 <= i < |defs| :: defs[i].name)
            && forall i | 0 <= i < |defs| && LastOfName(defs, i) :: r[defs[i].name] == defs[i]
  {
    var n := |defs| - 1;
    var r := earlier[defs[n].name := defs[n]];
    forall i | 0 <= i < n ensures front[i] == defs[i] {
    }
    assert r.Keys == (set i | 0 <= i < |defs| :: defs[i].name) by {
      forall k | k in r.Keys ensures k in (set i | 0 <= i < |defs| :: defs[i].name) {
        if k != defs[n].name {
          var i :| 0 <= i < n && front[i].name == k;
          assert defs[i].name == k;
        }
      }
    }
    forall i | 0 <= i < |defs| && LastOfName(defs, i) ensures r[defs[i].name] == defs[i] {
      if i < n {
        assert LastOfName(front, i);
      }
    }
  }

  /** The first half of `load_page_template`: a bare name has no overrides; a
      mapping names the template under "name" and overrides with every other key. */
  function ParseSpec(spec: Json): (r: Result<(Json, map<string, Json>), Error>)
    ensures spec.JStr? ==> r == Success((spec, map[]))
    ensures spec.JObject? && "name" in spec.fields ==>
              r.Success? && r.value.0 == spec.fields["name"]
              && r.value.1.Keys == spec.fields.Keys - {"name"}
              && forall k | k in r.value.1 :: r.value.1[k] == spec.fields[k]
    ensures r.Failure? <==> !spec.JStr? && !(spec.JObject? && "name" in spec.fields)
  {
    match spec
    case JStr(_) => Success((spec, map[]))
    case JObject(m) =>
      if "name" in m then Success((m["name"], m - {"name"}))
      else Failure(PageTemplateSpecWithoutName)
    case _ => Failure(PageTemplateSpecNotMapping)
  }

  /** `load_page_template(spec)`: resolve a bare name or a name-with-overrides
      mapping against the catalog; an unknown name is a `ValueError` that lists
      the available names in sorted order. */
  function LoadPageTemplate(spec: Json, catalog: map<string, PageTemplateDef>): (r: Result<PageTemplate, Error>)
    ensures spec.JStr? ==> (r.Success? <==> spec.s in catalog)
    ensures spec.JStr? && r.Success? ==> r.value.name == spec.s && r.value.overrides == map[]
    ensures spec.JStr? && r.Failure? ==> r.error.UnknownPageTemplate? && r.error.name == spec.s
    ensures spec.JObject? && r.Success? ==>
              "name" in spec.fields && spec.fields["name"] == JStr(r.value.name)
              && r.value.overrides.Keys == spec.fields.Keys - {"name"}
              && forall k | k in r.value.overrides :: r.value.overrides[k] == spec.fields[k]
    ensures spec.JObject? && "name" in spec.fields && spec.fields["name"].JStr? ==>
              var n := spec.fields["name"].s;
              && (r.Success? <==> n in catalog)
              && (n !in catalog ==> r == Failure(UnknownPageTemplate(n, SortedNames(catalog.Keys))))
    ensures spec.JStr? && spec.s !in catalog ==> r == Failure(UnknownPageTemplate(spec.s, SortedNames(catalog.Keys)))
    ensures spec.JObject? && "name" in spec.fields && (spec.fields["name"].JList? || spec.fields["name"].JObject?) ==>
              r == Failure(PageTemplateNameUnhashable)
    ensures spec.JObject? && "name" in spec.fields
            && (spec.fields["name"].JNum? || spec.fields["name"].JBool? || spec.fields["name"].JNull?) ==>
              r == Failure(UnknownPageTemplate(PyStr(spec.fields["name"]), SortedNames(catalog.Keys)))
    ensures spec.JObject? && "name" !in spec.fields ==> r == Failure(PageTemplateSpecWithoutName)
    ensures !spec.JStr? && !spec.JObject? ==> r == Failure(PageTemplateSpecNotMapping)
    ensures r.Success? ==> r.value.name in catalog
    ensures r.Success? ==>
              var d := catalog[r.value.name];
              && (d.description.None? ==> r.value.description == "")
              && (d.description.Some? ==> r.value.description == d.description.value)
              && (d.headerInclude.None? ==> r.value.headerInclude == DefaultInclude)
              && (d.headerInclude.Some? ==> r.value.headerInclude == d.headerInclude.value)
              && (d.defaults.None? ==> r.value.defaults == map[])
              && (d.defaults.Some? ==> r.value.defaults == d.defaults.value)
    ensures r.Failure? && r.error.UnknownPageTemplate? ==>
              Sorted(r.error.available)
              && forall n :: n in r.error.available <==> n in catalog
  {
    var (nameValue, overrides) :- ParseSpec(spec);
    match nameValue
    case JStr(name) =>
      if name !in catalog then Failure(UnknownPageTemplate(name, SortedNames(catalog.Keys)))
      else
        var d := catalog[name];
        Success(PageTemplate(
          name,
          d.description.GetOr(""),
          d.headerInclude.GetOr(DefaultInclude),
          d.defaults.GetOr(map[]),
          overrides))
    case JList(_) => Failure(PageTemplateNameUnhashable)
    case JObject(_) => Failure(PageTemplateNameUnhashable)
    case _ =>
      // a number, boolean or null is hashable but never a catalog key
      Failure(UnknownPageTemplate(PyStr(nameValue), SortedNames(catalog.Keys)))
  }

  /** The catalog default of a flag, or `true` when the catalog has none. */
  function CatalogFlag(d: PageTemplateDef, key: string): Json {
    Get(d.defaults.GetOr(map[]), key, JBool(true))
  }

  /** A bare name gives both flags their catalog defaults (or `true`). */
  lemma BareNameFlags(n: string, catalog: map<string, PageTemplateDef>)
    requires n in catalog
    ensures LoadPageTemplate(JStr(n), catalog).Success?
    ensures LoadPageTemplate(JStr(n), catalog).value.PageNumbers() == CatalogFlag(catalog[n], "page_numbers")
    ensures LoadPageTemplate(JStr(n), catalog).value.FirstPageHeader() == CatalogFlag(catalog[n], "first_page_header")
  {
  }

  /** Overriding `page_numbers` sets it and leaves `first_page_header` at its catalog default. */
  lemma OverridePageNumbers(n: string, v: Json, catalog: map<string, PageTemplateDef>)
    requires n in catalog
    ensures var pt := LoadPageTemplate(JObject(map["name" := JStr(n), "page_numbers" := v]), catalog);
            && pt.Success?
            && pt.value.PageNumbers() == v
            && pt.value.FirstPageHeader() == CatalogFlag(catalog[n], "first_page_header")
  {
    var spec := map["name" := JStr(n), "page_numbers" := v];
    assert spec.Keys - {"name"} == {"page_numbers"};
  }

  /** Overriding `first_page_header` sets it and leaves `page_numbers` at its catalog default. */
  lemma OverrideFirstPageHeader(n: string, v: Json, catalog: map<string, PageTemplateDef>)
    requires n in catalog
    ensures var pt := LoadPageTemplate(JObject(map["name" := JStr(n), "first_page_header" := v]), catalog);
            && pt.Success?
            && pt.value.FirstPageHeader() == v
            && pt.value.PageNumbers() == CatalogFlag(catalog[n], "page_numbers")
  {
    var spec := map["name" := JStr(n), "first_page_header" := v];
    assert spec.Keys - {"name"} == {"first_page_header"};
  }

  /** An unknown bare name fails with a `ValueError` starting "Unknown page template". */
  lemma UnknownPageTemplateMessage(n: string, catalog: map<string, PageTemplateDef>)
    requires n !in catalog
    ensures LoadPageTemplate(JStr(n), catalog).Failure?
    ensures LoadPageTemplate(JStr(n), catalog).error.Kind() == ValueError
    ensures "Unknown page template" <= LoadPageTemplate(JStr(n), catalog).error.Message()
  {
    LookupMessages(n, SortedNames(catalog.Keys));
  }

  /** One entry of `list_page_templates()`. */
  datatype PageTemplateSummary = PageTemplateSummary(
    name: string,
    description: string,
    defaults: map<string, Json>)

  function Summarize(d: PageTemplateDef): PageTemplateSummary {
    PageTemplateSummary(d.name, d.description.GetOr(""), d.defaults.GetOr(map[]))
  }

  /** `list_page_templates()`: one summary per catalog entry, sorted by name. */
  function ListPageTemplates(catalog: map<string, PageTemplateDef>): (r: seq<PageTemplateSummary>)
    requires WellFormed(catalog)
    ensures |r| == |catalog|
    ensures forall i, j | 0 <= i < j < |r| :: LexLeq(r[i].name, r[j].name) && r[i].name != r[j].name
    ensures forall n :: n in catalog <==> exists i | 0 <= i < |r| :: r[i].name == n
    ensures forall i | 0 <= i < |r| ::
              r[i].name in catalog
              && r[i].description == catalog[r[i].name].description.GetOr("")
              && r[i].defaults == catalog[r[i].name].defaults.GetOr(map[])
  {
    var names := SortedNames(catalog.Keys);
    var r := seq(|names|, i requires 0 <= i < |names| => Summarize(catalog[names[i]]));
    ListingFacts(catalog, names, r);
    r
  }

  lemma ListingFacts(catalog: map<string, PageTemplateDef>, names: seq<string>, r: seq<PageTemplateSummary>)
    requires WellFormed(catalog)
    requires |names| == |catalog| && Sorted(names) && Distinct(names)
    requires forall n :: n in names <==> n in catalog
    requires |r| == |names| && forall i | 0 <= i < |names| :: r[i] == Summarize(catalog[names[i]])
    ensures forall i | 0 <= i < |r| :: r[i].name == names[i]
    ensures forall i, j | 0 <= i < j < |r| :: LexLeq(r[i].name, r[j].name) && r[i].name != r[j].name
    ensures forall n :: n in catalog <==> exists i | 0 <= i < |r| :: r[i].name == n
    ensures forall i | 0 <= i < |r| ::
              r[i].name in catalog
              && r[i].description == catalog[r[i].name].description.GetOr("")
              && r[i].defaults == catalog[r[i].name].defaults.GetOr(map[])
  {
    forall i | 0 <= i < |r| ensures r[i].name == names[i] {
      assert names[i] in names;
    }
    forall n | n in catalog ensures exists i | 0 <= i < |r| :: r[i].name == n {
      var i :| 0 <= i < |names| && names[i] == n;
      assert r[i].name == n;
    }
  }
}
