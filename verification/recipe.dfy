/** Recipe loading and the recipe context (klartex/recipe.py): a declarative
    list of components bound to payload fields, metadata rules and page chrome. */
module Recipe {
  import opened Wrappers
  import opened Text
  import opened JsonData
  import opened Errors
  import opened Components
  import opened PageTemplates

  // ---------------------------------------------------------------------------
  // The parsed recipe file
  // ---------------------------------------------------------------------------

  /** One metadata rule as written in the recipe; absent keys are `None` and get
      their defaults where they are used. */
  datatype MetadataRule = MetadataRule(
    field: string,
    labelText: string,
    optional: Option<bool>,
    suffixFields: Option<seq<string>>,
    suffixSeparator: Option<string>)

  /** A component entry of the recipe file. */
  datatype RawComponent = RawComponent(
    kind: string,
    dataMap: Option<map<string, string>>,
    options: Option<map<string, Json>>)

  /** The `document` section of the recipe file. */
  datatype RawDocument = RawDocument(
    title: Option<string>,
    pageTemplate: Option<string>,
    metadata: Option<seq<MetadataRule>>)

  /** A recipe file after YAML parsing, in the shape the recipe schema admits. */
  datatype RawRecipe = RawRecipe(
    name: string,
    description: string,
    lang: Option<string>,
    document: Option<RawDocument>,
    components: Option<seq<RawComponent>>,
    contentFields: Option<map<string, map<string, string>>>,
    schema: Option<string>)

  // ---------------------------------------------------------------------------
  // The loaded recipe
  // ---------------------------------------------------------------------------

  /** `RecipeComponent`. */
  datatype RecipeComponent = RecipeComponent(
    kind: string,
    dataMap: map<string, string>,
    options: map<string, Json>,
    spec: Option<ComponentSpec>)

  /** `RecipeDocument`. */
  datatype RecipeDocument = RecipeDocument(
    title: string,
    pageTemplate: string,
    metadata: seq<MetadataRule>)

  /** `Recipe`. */
  datatype Recipe = Recipe(
    name: string,
    description: string,
    lang: string,
    document: RecipeDocument,
    components: seq<RecipeComponent>,
    contentFields: map<string, map<string, string>>,
    schemaPath: Option<string>)

  /** The component loop of `load_recipe` with the registry lookup as a
      parameter: every type is looked up eagerly and the first failed lookup
      aborts the load. */
  function LoadComponentsWith(raws: seq<RawComponent>, lookup: string -> Result<ComponentSpec, Error>)
    : (r: Result<seq<RecipeComponent>, Error>)
    ensures r.Success? <==> forall i | 0 <= i < |raws| :: lookup(raws[i].kind).Success?
    ensures r.Success? ==> |r.value| == |raws|
    ensures r.Success? ==> forall i | 0 <= i < |raws| ::
              && r.value[i].kind == raws[i].kind
              && r.value[i].spec == Some(lookup(raws[i].kind).value)
              && r.value[i].dataMap == raws[i].dataMap.GetOr(map[])
              && r.value[i].options == raws[i].options.GetOr(map[])
    ensures r.Failure? ==> exists i | 0 <= i < |raws| ::
              && lookup(raws[i].kind).Failure?
              && (forall k | 0 <= k < i :: lookup(raws[k].kind).Success?)
              && r.error == lookup(raws[i].kind).error
    decreases |raws|
  {
    if |raws| == 0 then Success([])
    else
      match lookup(raws[0].kind)
      case Failure(e) => Failure(e)
      case Success(spec) =>
        var rest := LoadComponentsWith(raws[1..], lookup);
        assert forall i | 1 <= i < |raws| :: raws[i] == raws[1..][i - 1];
        match rest
        case Failure(e) =>
          assert exists i | 1 <= i < |raws| ::
              && lookup(raws[i].kind).Failure?
              && (forall k | 0 <= k < i :: lookup(raws[k].kind).Success?)
              && e == lookup(raws[i].kind).error by {
            var j :| 0 <= j < |raws[1..]| && lookup(raws[1..][j].kind).Failure?
                     && (forall k | 0 <= k < j :: lookup(raws[1..][k].kind).Success?)
                     && e == lookup(raws[1..][j].kind).error;
            assert raws[j + 1] == raws[1..][j];
          }
          Failure(e)
        case Success(tail) =>
          Success([RecipeComponent(raws[0].kind, raws[0].dataMap.GetOr(map[]), raws[0].options.GetOr(map[]), Some(spec))] + tail)
  }

  /** The component loop of `load_recipe` against the component registry. */
  function LoadComponents(raws: seq<RawComponent>): Result<seq<RecipeComponent>, Error> {
    LoadComponentsWith(raws, GetComponent)
  }

  /** `load_recipe` after the file is parsed: schema validation (an abstract
      predicate), then the fields with their defaults, then the components. */
  function LoadRecipe(raw: RawRecipe, valid: RawRecipe -> bool): (r: Result<Recipe, Error>)
    ensures !valid(raw) ==> r == Failure(SchemaViolation)
    ensures r.Success? <==> valid(raw) && LoadComponents(raw.components.GetOr([])).Success?
    ensures valid(raw) && LoadComponents(raw.components.GetOr([])).Failure? ==>
              r == Failure(LoadComponents(raw.components.GetOr([])).error)
    ensures r.Success? ==> r.value.name == raw.name && r.value.description == raw.description
    ensures r.Success? ==> r.value.lang == (if raw.lang.Some? then raw.lang.value else "sv")
    ensures r.Success? && raw.document.None? ==> r.value.document == RecipeDocument("", "formal", [])
    ensures r.Success? && raw.document.Some? ==>
              && r.value.document.title == (if raw.document.value.title.Some? then raw.document.value.title.value else "")
              && r.value.document.pageTemplate ==
                   (if raw.document.value.pageTemplate.Some? then raw.document.value.pageTemplate.value else "formal")
              && r.value.document.metadata ==
                   (if raw.document.value.metadata.Some? then raw.document.value.metadata.value else [])
    ensures r.Success? ==> r.value.components == LoadComponents(raw.components.GetOr([])).value
    ensures r.Success? ==> |r.value.components| == |raw.components.GetOr([])|
                           && forall c | c in r.value.components :: c.spec.Some? && c.spec.value.name == c.kind
    ensures r.Success? ==> r.value.contentFields == raw.contentFields.GetOr(map[])
                           && r.value.schemaPath == raw.schema
  {
    if !valid(raw) then Failure(SchemaViolation)
    else
      var doc := raw.document.GetOr(RawDocument(None, None, None));
      var document := RecipeDocument(doc.title.GetOr(""), doc.pageTemplate.GetOr("formal"), doc.metadata.GetOr([]));
      var components :- LoadComponents(raw.components.GetOr([]));
      CatalogNamesMatch();
      Success(Recipe(raw.name, raw.description, raw.lang.GetOr("sv"), document, components,
                     raw.contentFields.GetOr(map[]), raw.schema))
  }

  /** A recipe naming an unknown component type fails to load with "Unknown component". */
  lemma UnknownComponentFailsLoad(raw: RawRecipe, valid: RawRecipe -> bool, i: nat)
    requires valid(raw) && raw.components.Some? && i < |raw.components.value|
    requires raw.components.value[i].kind !in Catalog
    ensures LoadRecipe(raw, valid).Failure?
    ensures LoadRecipe(raw, valid).error.Kind() == ValueError
    ensures "Unknown component" <= LoadRecipe(raw, valid).error.Message()
  {
    var raws := raw.components.value;
    assert GetComponent(raws[i].kind).Failure?;
    var name := FirstFailedLookup(raws, GetComponent);
    UnknownComponentMessage(name);
    assert LoadRecipe(raw, valid) == Failure(GetComponent(name).error);
  }

  /** When the component loop fails, it fails with the error of the first failed lookup. */
  lemma FirstFailedLookup(raws: seq<RawComponent>, lookup: string -> Result<ComponentSpec, Error>)
    returns (name: string)
    requires exists i | 0 <= i < |raws| :: lookup(raws[i].kind).Failure?
    ensures lookup(name).Failure? && LoadComponentsWith(raws, lookup) == Failure(lookup(name).error)
  {
    var r := LoadComponentsWith(raws, lookup);
    var j :| 0 <= j < |raws| && lookup(raws[j].kind).Failure? && r.error == lookup(raws[j].kind).error;
    name := raws[j].kind;
  }

  // ---------------------------------------------------------------------------
  // Template expressions
  // ---------------------------------------------------------------------------

  /** The outcome of evaluating a title or page-template expression. */
  datatype Evaluation = Evaluated(value: string) | FellBackToRaw(original: string)
  {
    function Text(): string {
      if Evaluated? then value else original
    }
  }

  /** Evaluate a template expression against the payload; `eval` is the template
      engine (`None` for a template error), and an error falls back to the raw text. */
  function Evaluate(expr: string, data: map<string, Json>, eval: (string, map<string, Json>) -> Option<string>)
    : (r: Evaluation)
    ensures r.FellBackToRaw? <==> eval(expr, data).None?
    ensures r.FellBackToRaw? ==> r.Text() == expr
    ensures r.Evaluated? ==> eval(expr, data) == Some(r.Text())
  {
    match eval(expr, data)
    case Some(rendered) => Evaluated(rendered)
    case None => FellBackToRaw(expr)
  }

  // ---------------------------------------------------------------------------
  // Dotted paths
  // ---------------------------------------------------------------------------

  /** `_resolve_path(data, path)` written as its loop; it agrees with the
      component registry's `resolve_data_path` on every input. */
  method ResolvePath(data: map<string, Json>, path: string) returns (r: Json)
    ensures r == ResolveDataPath(JObject(data), path)
  {
    var parts := Split(path, '.');
    var current := JObject(data);
    var i := 0;
    while i < |parts|
      invariant 0 <= i <= |parts|
      invariant Walk(current, parts[i..]) == Walk(JObject(data), parts)
    {
      if current.JObject? && parts[i] in current.fields {
        assert parts[i..][1..] == parts[i + 1..];
        current := current.fields[parts[i]];
      } else {
        return JNull;
      }
      i := i + 1;
    }
    return current;
  }

  /** `_resolve_path` as a function, used by the context builder below. */
  function Resolve(data: map<string, Json>, path: string): Json {
    ResolveDataPath(JObject(data), path)
  }

  // ---------------------------------------------------------------------------
  // Metadata rows
  // ---------------------------------------------------------------------------

  /** A resolved metadata row. */
  datatype MetadataRow = MetadataRow(labelText: string, value: Json)

  /** The present results of `f` over `xs`, in order: the shape of a loop that
      appends to a list only when a value is there. */
  function Present<A, B>(xs: seq<A>, f: A -> Option<B>): (ys: seq<B>)
    ensures |ys| <= |xs|
    ensures |ys| == 0 <==> forall i | 0 <= i < |xs| :: f(xs[i]).None?
    ensures (forall i | 0 <= i < |xs| :: f(xs[i]).Some?) ==>
              |ys| == |xs| && forall i | 0 <= i < |xs| :: ys[i] == f(xs[i]).value
    decreases |xs|
  {
    if |xs| == 0 then []
    else
      var rest := Present(xs[1..], f);
      var ys := if f(xs[0]).Some? then [f(xs[0]).value] + rest else rest;
      assert forall i | 1 <= i < |xs| :: xs[i] == xs[1..][i - 1];
      assert (forall i | 0 <= i < |xs| :: f(xs[i]).Some?) ==>
               forall i | 0 <= i < |xs| :: ys[i] == f(xs[i]).value by {
        if forall i | 0 <= i < |xs| :: f(xs[i]).Some? {
          forall i | 0 <= i < |xs| ensures ys[i] == f(xs[i]).value {
            if i > 0 {
              assert ys[i] == rest[i - 1];
            }
          }
        }
      }
      ys
  }

  /** The results over consecutive lists are the results over each, in order. */
  lemma {:induction false} PresentConcat<A, B>(a: seq<A>, b: seq<A>, f: A -> Option<B>)
    ensures Present(a + b, f) == Present(a, f) + Present(b, f)
    decreases |a|
  {
    if |a| > 0 {
      assert (a + b)[0] == a[0];
      assert (a + b)[1..] == a[1..] + b;
      PresentConcat(a[1..], b, f);
    } else {
      assert a + b == b;
    }
  }

  /** A suffix field's rendered value, or nothing when it resolves to null. */
  function SuffixValue(data: map<string, Json>, field: string): Option<string> {
    var value := Resolve(data, field);
    if value != JNull then Some(PyStr(value)) else None
  }

  /** The rendered, non-null suffix values, in the order of their fields. */
  function SuffixParts(fields: seq<string>, data: map<string, Json>): (r: seq<string>)
    ensures |r| <= |fields|
    ensures |r| == 0 <==> forall i | 0 <= i < |fields| :: Resolve(data, fields[i]) == JNull
    ensures (forall i | 0 <= i < |fields| :: Resolve(data, fields[i]) != JNull) ==>
              |r| == |fields| && forall i | 0 <= i < |fields| :: r[i] == PyStr(Resolve(data, fields[i]))
  {
    Present(fields, (f: string) => SuffixValue(data, f))
  }

  /** The parts of consecutive suffix lists are the parts of each list, in order. */
  lemma SuffixPartsConcat(a: seq<string>, b: seq<string>, data: map<string, Json>)
    ensures SuffixParts(a + b, data) == SuffixParts(a, data) + SuffixParts(b, data)
  {
    PresentConcat(a, b, (f: string) => SuffixValue(data, f));
  }

  /** One suffix field contributes `str()` of its value, or nothing when it is null. */
  lemma SuffixPartsSingle(field: string, data: map<string, Json>)
    ensures SuffixParts([field], data)
            == (if Resolve(data, field) == JNull then [] else [PyStr(Resolve(data, field))])
  {
  }

  /** A suffix field that resolves to null is dropped, whatever its neighbours
      resolve to. */
  lemma NullSuffixDropped(fields: seq<string>, i: nat, data: map<string, Json>)
    requires i < |fields| && Resolve(data, fields[i]) == JNull
    ensures SuffixParts(fields, data) == SuffixParts(fields[..i], data) + SuffixParts(fields[i + 1..], data)
  {
    assert fields == fields[..i] + ([fields[i]] + fields[i + 1..]);
    SuffixPartsConcat(fields[..i], [fields[i]] + fields[i + 1..], data);
    SuffixPartsConcat([fields[i]], fields[i + 1..], data);
    SuffixPartsSingle(fields[i], data);
  }

  /** The row one metadata rule contributes, if any. */
  function MetadataRowFor(rule: MetadataRule, data: map<string, Json>): (r: Option<MetadataRow>)
    ensures r.None? <==> rule.optional == Some(true) && Resolve(data, rule.field) == JNull
    ensures r.Some? ==> r.value.labelText == rule.labelText
    ensures r.Some? && SuffixParts(rule.suffixFields.GetOr([]), data) == [] ==>
              r.value.value == (if Resolve(data, rule.field) == JNull then JStr("") else Resolve(data, rule.field))
    ensures r.Some? && SuffixParts(rule.suffixFields.GetOr([]), data) != [] ==>
              var display := if Resolve(data, rule.field) == JNull then JStr("") else Resolve(data, rule.field);
              var sep := if rule.suffixSeparator.Some? then rule.suffixSeparator.value else ", ";
              r.value.value == JStr(PyStr(display) + ", " + Join(SuffixParts(rule.suffixFields.GetOr([]), data), sep))
  {
    var value := Resolve(data, rule.field);
    if rule.optional.GetOr(false) && value == JNull then None
    else
      var display := if value != JNull then value else JStr("");
      var fields := rule.suffixFields.GetOr([]);
      if |fields| > 0 then
        var parts := SuffixParts(fields, data);
        if |parts| > 0 then
          Some(MetadataRow(rule.labelText, JStr(PyStr(display) + ", " + Join(parts, rule.suffixSeparator.GetOr(", ")))))
        else Some(MetadataRow(rule.labelText, display))
      else Some(MetadataRow(rule.labelText, display))
  }

  /** The metadata loop: at most one row per rule, in rule order. */
  function ResolveMetadata(rules: seq<MetadataRule>, data: map<string, Json>): (rows: seq<MetadataRow>)
    ensures |rows| <= |rules|
    ensures (forall i | 0 <= i < |rules| :: MetadataRowFor(rules[i], data).Some?) ==>
              |rows| == |rules| && forall i | 0 <= i < |rules| :: rows[i] == MetadataRowFor(rules[i], data).value
  {
    Present(rules, (rule: MetadataRule) => MetadataRowFor(rule, data))
  }

  /** Rows of consecutive rule lists are the rows of each list, in order. */
  lemma ResolveMetadataConcat(a: seq<MetadataRule>, b: seq<MetadataRule>, data: map<string, Json>)
    ensures ResolveMetadata(a + b, data) == ResolveMetadata(a, data) + ResolveMetadata(b, data)
  {
    PresentConcat(a, b, (rule: MetadataRule) => MetadataRowFor(rule, data));
  }

  /** An optional rule whose field is missing yields no row at all. */
  lemma OptionalMissingFieldSkipped(rules: seq<MetadataRule>, i: nat, data: map<string, Json>)
    requires i < |rules| && rules[i].optional == Some(true) && Resolve(data, rules[i].field) == JNull
    ensures ResolveMetadata(rules, data)
            == ResolveMetadata(rules[..i], data) + ResolveMetadata(rules[i + 1..], data)
  {
    assert rules == rules[..i] + ([rules[i]] + rules[i + 1..]);
    ResolveMetadataConcat(rules[..i], [rules[i]] + rules[i + 1..], data);
    ResolveMetadataConcat([rules[i]], rules[i + 1..], data);
  }

  /** A required rule whose field is missing and whose suffixes all resolve to
      null yields one row, with the value "". */
  lemma RequiredMissingFieldIsEmpty(rule: MetadataRule, data: map<string, Json>)
    requires rule.optional != Some(true) && Resolve(data, rule.field) == JNull
    requires forall i | 0 <= i < |rule.suffixFields.GetOr([])| :: Resolve(data, rule.suffixFields.GetOr([])[i]) == JNull
    ensures ResolveMetadata([rule], data) == [MetadataRow(rule.labelText, JStr(""))]
  {
    assert MetadataRowFor(rule, data) == Some(MetadataRow(rule.labelText, JStr("")));
  }

  // ---------------------------------------------------------------------------
  // Components and support packages
  // ---------------------------------------------------------------------------

  /** One entry of the context's `components` list. */
  datatype ResolvedComponent = ResolvedComponent(
    kind: string,
    data: map<string, Json>,
    options: map<string, Json>,
    spec: Option<ComponentSpec>)

  /** One resolved component per recipe component, in order, with its bound fields. */
  function ResolveComponents(components: seq<RecipeComponent>, data: map<string, Json>)
    : (r: seq<ResolvedComponent>)
    ensures |r| == |components|
    ensures forall i | 0 <= i < |components| ::
              && r[i].kind == components[i].kind
              && r[i].data.Keys == components[i].dataMap.Keys
              && (forall p | p in r[i].data :: r[i].data[p] == Resolve(data, components[i].dataMap[p]))
              && r[i].options == components[i].options
              && r[i].spec == components[i].spec
  {
    seq(|components|, i requires 0 <= i < |components| =>
      ResolvedComponent(components[i].kind, ExtractComponentData(components[i].kind, Some(components[i].dataMap), JObject(data)),
                        components[i].options, components[i].spec))
  }

  /** The support package a component needs: its spec's non-empty `sty_package`. */
  function RequiredPackage(c: RecipeComponent): Option<string> {
    if c.spec.Some? && c.spec.value.styPackage.Some? && |c.spec.value.styPackage.value| > 0
    then c.spec.value.styPackage else None
  }

  /** Every required package, in component order, duplicates included. */
  function PackageList(components: seq<RecipeComponent>): (r: seq<string>)
    decreases |components|
  {
    if |components| == 0 then []
    else
      var front := PackageList(components[..|components| - 1]);
      match RequiredPackage(components[|components| - 1])
      case Some(p) => front + [p]
      case None => front
  }

  /** A package is listed exactly when some component requires it. */
  lemma {:induction false} PackageListMembers(components: seq<RecipeComponent>, p: string)
    ensures p in PackageList(components) <==>
            exists i | 0 <= i < |components| :: RequiredPackage(components[i]) == Some(p)
    decreases |components|
  {
    if |components| > 0 {
      var front := components[..|components| - 1];
      PackageListMembers(front, p);
      assert forall i | 0 <= i < |front| :: front[i] == components[i];
    }
  }

  /** Keep the first occurrence of every element. */
  function Dedup(xs: seq<string>): seq<string>
    decreases |xs|
  {
    if |xs| == 0 then []
    else
      var d := Dedup(xs[..|xs| - 1]);
      if xs[|xs| - 1] in d then d else d + [xs[|xs| - 1]]
  }

  /** Deduplication keeps exactly the elements of its input. */
  lemma {:induction false} DedupMembers(xs: seq<string>)
    ensures forall x :: x in Dedup(xs) <==> x in xs
    decreases |xs|
  {
    if |xs| > 0 {
      DedupMembers(xs[..|xs| - 1]);
      assert xs == xs[..|xs| - 1] + [xs[|xs| - 1]];
    }
  }

  /** Deduplication leaves no duplicates. */
  lemma {:induction false} DedupDistinct(xs: seq<string>)
    ensures Distinct(Dedup(xs))
    decreases |xs|
  {
    if |xs| > 0 {
      DedupDistinct(xs[..|xs| - 1]);
    }
  }

  /** The index of an element's first occurrence. */
  ghost function FirstIndex(xs: seq<string>, x: string): (i: nat)
    requires x in xs
    ensures i < |xs| && xs[i] == x && forall k | 0 <= k < i :: xs[k] != x
    decreases |xs|
  {
    if xs[0] == x then 0
    else
      assert x in xs[1..] by { var j :| 0 <= j < |xs| && xs[j] == x; assert xs[1..][j - 1] == x; }
      1 + FirstIndex(xs[1..], x)
  }

  /** Appending an element leaves the first occurrences of earlier elements in place. */
  lemma FirstIndexAppend(front: seq<string>, y: string, x: string)
    requires x in front
    ensures x in front + [y] && FirstIndex(front + [y], x) == FirstIndex(front, x)
  {
    var xs := front + [y];
    var i := FirstIndex(front, x);
    assert xs[i] == x;
    assert forall k | 0 <= k < i :: xs[k] == front[k];
    var j := FirstIndex(xs, x);
    assert j <= i;
    assert front[j] == x;
  }

  /** A new element first occurs at the end. */
  lemma FirstIndexNew(front: seq<string>, y: string)
    requires y !in front
    ensures y in front + [y] && FirstIndex(front + [y], y) == |front|
  {
    var xs := front + [y];
    assert xs[|front|] == y;
  }

  /** Deduplication lists elements in the order of their first occurrence. */
  lemma {:induction false} DedupFirstSeen(xs: seq<string>)
    ensures forall a, b | 0 <= a < b < |Dedup(xs)| ::
              Dedup(xs)[a] in xs && Dedup(xs)[b] in xs && FirstIndex(xs, Dedup(xs)[a]) < FirstIndex(xs, Dedup(xs)[b])
    decreases |xs|
  {
    if |xs| > 0 {
      var front := xs[..|xs| - 1];
      var y := xs[|xs| - 1];
      assert xs == front + [y];
      var d := Dedup(front);
      DedupFirstSeen(front);
      DedupMembers(front);
      forall x | x in front ensures x in xs && FirstIndex(xs, x) == FirstIndex(front, x) {
        FirstIndexAppend(front, y, x);
      }
      var dx := Dedup(xs);
      if y !in d {
        assert y !in front;
        FirstIndexNew(front, y);
        assert dx == d + [y];
        forall a, b | 0 <= a < b < |dx|
          ensures dx[a] in xs && dx[b] in xs && FirstIndex(xs, dx[a]) < FirstIndex(xs, dx[b])
        {
          assert dx[a] == d[a] && d[a] in front;
          if b < |d| {
            assert dx[b] == d[b] && d[b] in front;
          } else {
            assert dx[b] == y;
            assert FirstIndex(front, d[a]) < |front|;
          }
        }
      } else {
        assert dx == d;
        forall a, b | 0 <= a < b < |dx|
          ensures dx[a] in xs && dx[b] in xs && FirstIndex(xs, dx[a]) < FirstIndex(xs, dx[b])
        {
          assert d[a] in front && d[b] in front;
        }
      }
    }
  }

  /** A list without duplicates is its own deduplication. */
  lemma {:induction false} DedupOfDistinct(xs: seq<string>)
    requires Distinct(xs)
    ensures Dedup(xs) == xs
    decreases |xs|
  {
    if |xs| > 0 {
      var front := xs[..|xs| - 1];
      DedupOfDistinct(front);
      assert xs[|xs| - 1] !in front;
      assert xs == front + [xs[|xs| - 1]];
    }
  }

  /** The `sty_packages` loop: a `seen` set filters repeats, keeping first-seen order. */
  method CollectStyPackages(components: seq<RecipeComponent>) returns (packages: seq<string>)
    ensures packages == Dedup(PackageList(components))
    ensures Distinct(packages)
    ensures forall p :: p in packages <==> exists i | 0 <= i < |components| :: RequiredPackage(components[i]) == Some(p)
  {
    packages := [];
    var seen: set<string> := {};
    var i := 0;
    while i < |components|
      invariant 0 <= i <= |components|
      invariant packages == Dedup(PackageList(components[..i]))
      invariant forall p :: p in seen <==> p in packages
    {
      var c := components[i];
      assert components[..i + 1][..i] == components[..i];
      if c.spec.Some? && c.spec.value.styPackage.Some? && |c.spec.value.styPackage.value| > 0
         && c.spec.value.styPackage.value !in seen {
        packages := packages + [c.spec.value.styPackage.value];
        seen := seen + {c.spec.value.styPackage.value};
      }
      i := i + 1;
    }
    assert components[..|components|] == components;
    DedupDistinct(PackageList(components));
    DedupMembers(PackageList(components));
    forall p ensures p in packages <==> exists i | 0 <= i < |components| :: RequiredPackage(components[i]) == Some(p) {
      PackageListMembers(components, p);
    }
  }

  // ---------------------------------------------------------------------------
  // prepare_recipe_context
  // ---------------------------------------------------------------------------

  /** The context handed to the recipe meta-template (branding is not modelled). */
  datatype RecipeContext = RecipeContext(
    recipe: Recipe,
    data: map<string, Json>,
    title: Evaluation,
    pageTemplateInclude: string,
    metadata: seq<MetadataRow>,
    components: seq<ResolvedComponent>,
    styPackages: seq<string>,
    lang: string)

  /** `prepare_recipe_context(recipe, data)`. `eval` is the template engine and
      `catalog` the page template catalog. */
  function PrepareRecipeContext(
    recipe: Recipe,
    data: map<string, Json>,
    eval: (string, map<string, Json>) -> Option<string>,
    catalog: map<string, PageTemplateDef>): (r: Result<RecipeContext, Error>)
    ensures r.Success? <==>
              LoadPageTemplate(JStr(Evaluate(recipe.document.pageTemplate, data, eval).Text()), catalog).Success?
    ensures r.Failure? ==> r.error.UnknownPageTemplate?
    ensures r.Failure? ==>
              r.error == LoadPageTemplate(JStr(Evaluate(recipe.document.pageTemplate, data, eval).Text()), catalog).error
    ensures r.Success? ==>
              && r.value.recipe == recipe && r.value.data == data && r.value.lang == recipe.lang
              && r.value.title.Text() == (if eval(recipe.document.title, data).Some?
                                          then eval(recipe.document.title, data).value else recipe.document.title)
              && r.value.pageTemplateInclude ==
                   LoadPageTemplate(JStr(Evaluate(recipe.document.pageTemplate, data, eval).Text()), catalog)
                     .value.headerInclude
              && r.value.title == Evaluate(recipe.document.title, data, eval)
              && r.value.metadata == ResolveMetadata(recipe.document.metadata, data)
              && r.value.components == ResolveComponents(recipe.components, data)
              && r.value.styPackages == Dedup(PackageList(recipe.components))
              && |r.value.metadata| <= |recipe.document.metadata|
              && |r.value.components| == |recipe.components|
              && Distinct(r.value.styPackages)
              && (forall p :: p in r.value.styPackages <==>
                    exists i | 0 <= i < |recipe.components| :: RequiredPackage(recipe.components[i]) == Some(p))
  {
    var title := Evaluate(recipe.document.title, data, eval);
    var pageTemplateName := Evaluate(recipe.document.pageTemplate, data, eval);
    var metadata := ResolveMetadata(recipe.document.metadata, data);
    var components := ResolveComponents(recipe.components, data);
    var packages := Dedup(PackageList(recipe.components));
    DedupDistinct(PackageList(recipe.components));
    DedupMembers(PackageList(recipe.components));
    PackageMembership(recipe.components);
    var pageTemplate :- LoadPageTemplate(JStr(pageTemplateName.Text()), catalog);
    Success(RecipeContext(recipe, data, title, pageTemplate.headerInclude, metadata, components, packages, recipe.lang))
  }

  /** The context lists support packages in the order in which the components
      first require them. */
  lemma ContextPackagesFirstSeen(recipe: Recipe, data: map<string, Json>,
                                 eval: (string, map<string, Json>) -> Option<string>,
                                 catalog: map<string, PageTemplateDef>)
    requires PrepareRecipeContext(recipe, data, eval, catalog).Success?
    ensures var packages := PrepareRecipeContext(recipe, data, eval, catalog).value.styPackages;
            var required := PackageList(recipe.components);
            forall a, b | 0 <= a < b < |packages| ::
              packages[a] in required && packages[b] in required
              && FirstIndex(required, packages[a]) < FirstIndex(required, packages[b])
  {
    var required := PackageList(recipe.components);
    var packages := PrepareRecipeContext(recipe, data, eval, catalog).value.styPackages;
    assert packages == Dedup(required);
    DedupFirstSeen(required);
    forall a, b | 0 <= a < b < |packages|
      ensures packages[a] in required && packages[b] in required
              && FirstIndex(required, packages[a]) < FirstIndex(required, packages[b])
    {
      assert packages[a] == Dedup(required)[a] && packages[b] == Dedup(required)[b];
    }
  }

  /** An optional metadata rule whose field is missing leaves no trace in the
      context: its rows are those of the rules before and after it. */
  lemma ContextSkipsOptionalMissing(recipe: Recipe, data: map<string, Json>,
                                    eval: (string, map<string, Json>) -> Option<string>,
                                    catalog: map<string, PageTemplateDef>, i: nat)
    requires PrepareRecipeContext(recipe, data, eval, catalog).Success?
    requires var rules := recipe.document.metadata;
             i < |rules| && rules[i].optional == Some(true) && Resolve(data, rules[i].field) == JNull
    ensures var rules := recipe.document.metadata;
            PrepareRecipeContext(recipe, data, eval, catalog).value.metadata
              == ResolveMetadata(rules[..i], data) + ResolveMetadata(rules[i + 1..], data)
  {
    OptionalMissingFieldSkipped(recipe.document.metadata, i, data);
  }

  /** `PackageListMembers` for every package at once. */
  lemma PackageMembership(components: seq<RecipeComponent>)
    ensures forall p :: p in PackageList(components) <==>
              exists i | 0 <= i < |components| :: RequiredPackage(components[i]) == Some(p)
  {
    forall p ensures p in PackageList(components) <==>
                     exists i | 0 <= i < |components| :: RequiredPackage(components[i]) == Some(p) {
      PackageListMembers(components, p);
    }
  }
}
