/** The component registry and dotted-path data binding (klartex/components.py). */
module Components {
  import opened Wrappers
  import opened Text
  import opened JsonData
  import opened Errors

  /** `ComponentSpec`: a component's support package and block schema file, both optional. */
  datatype ComponentSpec = ComponentSpec(
    name: string,
    styPackage: Option<string>,
    description: string,
    blockSchemaPath: Option<string>)

  /** `_COMPONENTS`: the block-mode kinds followed by the legacy recipe-only kinds. */
  const Catalog: map<string, ComponentSpec> := map[
    "heading" := ComponentSpec("heading", None, "Large bold heading text", Some("heading.schema.json")),
    "text" := ComponentSpec("text", None, "Free-form text paragraph (also known as preamble)",
      Some("text.schema.json")),
    "preamble" := ComponentSpec("preamble", None, "Introductory text paragraph (alias for text)",
      Some("text.schema.json")),
    "title_page" := ComponentSpec("title_page", Some("klartex-titelsida"),
      "Full-page title with party names and document title", Some("title_page.schema.json")),
    "parties" := ComponentSpec("parties", None, "Side-by-side display of two contract parties",
      Some("parties.schema.json")),
    "clause" := ComponentSpec("clause", Some("klartex-klausuler"),
      "Numbered legal clause with title and items", Some("clause.schema.json")),
    "signatures" := ComponentSpec("signatures", Some("klartex-signaturblock"),
      "Signature block for parties", Some("signatures.schema.json")),
    "metadata_table" := ComponentSpec("metadata_table", None,
      "Key-value metadata table (date, location, etc.)", Some("metadata_table.schema.json")),
    "attendees" := ComponentSpec("attendees", None, "Attendee and adjuster list",
      Some("attendees.schema.json")),
    "agenda" := ComponentSpec("agenda", Some("klartex-dagordning"),
      "§-numbered agenda with optional discussion and decisions", Some("agenda.schema.json")),
    "name_roster" := ComponentSpec("name_roster", Some("klartex-namnrollista"),
      "Name/role/note table for board listings", Some("name_roster.schema.json")),
    "page_break" := ComponentSpec("page_break", None, "Force a page break", Some("page_break.schema.json")),
    "latex" := ComponentSpec("latex", None, "Raw LaTeX passthrough (not escaped)", Some("latex.schema.json")),
    "klausuler" := ComponentSpec("klausuler", Some("klartex-klausuler"),
      "Legal clause numbering with \\clause command (recipe component)", None),
    "signaturblock" := ComponentSpec("signaturblock", Some("klartex-signaturblock"),
      "Two-party signature block (recipe component)", None),
    "titelsida" := ComponentSpec("titelsida", Some("klartex-titelsida"),
      "Title page with two party names and document title (recipe component)", None),
    "adjuster_signatures" := ComponentSpec("adjuster_signatures", Some("klartex-signaturblock"),
      "Adjuster signature lines (for protokoll)", None),
    "invoice_header" := ComponentSpec("invoice_header", None,
      "Right-aligned invoice header with number, date, due date", None),
    "invoice_recipient" := ComponentSpec("invoice_recipient", None,
      "Recipient info and references in two columns", None),
    "invoice_table" := ComponentSpec("invoice_table", None,
      "Invoice line items table with VAT and totals", None),
    "payment_info" := ComponentSpec("payment_info", None,
      "Payment method table (bankgiro, IBAN, etc.)", None),
    "invoice_note" := ComponentSpec("invoice_note", None, "Optional invoice footer note", None)
  ]

  /** The names of the legacy recipe-only components. */
  const LegacyNames: set<string> := {
    "klausuler", "signaturblock", "titelsida", "adjuster_signatures", "invoice_header",
    "invoice_recipient", "invoice_table", "payment_info", "invoice_note"
  }

  /** Every catalog entry is filed under its own name. */
  lemma CatalogNamesMatch()
    ensures forall k | k in Catalog :: Catalog[k].name == k
  {
  }

  /** `get_component(name)`: the registered spec, or `ValueError` listing every
      registered name in sorted order; there is no fallback. */
  function GetComponent(name: string): (r: Result<ComponentSpec, Error>)
    ensures r.Success? <==> name in Catalog
    ensures r.Success? ==> r.value.name == name && r.value == Catalog[name]
    ensures r.Failure? ==> r.error.UnknownComponent? && r.error.name == name
    ensures r.Failure? ==> Sorted(r.error.available) && Distinct(r.error.available)
                           && forall n :: n in r.error.available <==> n in Catalog
  {
    CatalogNamesMatch();
    if name in Catalog then Success(Catalog[name])
    else Failure(UnknownComponent(name, SortedNames(Catalog.Keys)))
  }

  /** An unregistered name fails with a `ValueError` whose message starts with "Unknown component". */
  lemma UnknownComponentMessage(name: string)
    requires name !in Catalog
    ensures GetComponent(name).Failure?
    ensures GetComponent(name).error.Kind() == ValueError
    ensures "Unknown component" <= GetComponent(name).error.Message()
  {
    var e := GetComponent(name).error;
    LookupMessages(name, e.available);
  }

  /** `list_components()`: a copy of the whole catalog. */
  function ListComponents(): (r: map<string, ComponentSpec>)
    ensures r.Keys == Catalog.Keys
    ensures forall k | k in r :: GetComponent(k) == Success(r[k])
  {
    Catalog
  }

  /** "text" and "preamble" share one block schema file. */
  lemma SharedTextSchema()
    ensures Catalog["text"].blockSchemaPath == Catalog["preamble"].blockSchemaPath == Some("text.schema.json")
  {
  }

  /** The legacy recipe names are registered, and none has a block schema. */
  lemma LegacyWithoutSchema()
    ensures LegacyNames <= Catalog.Keys
    ensures forall k | k in LegacyNames :: Catalog[k].blockSchemaPath.None?
  {
  }

  /** Every other registered name has a non-empty block schema path. */
  lemma BlockKindsWithSchema()
    ensures forall k | k in Catalog && k !in LegacyNames ::
              Catalog[k].blockSchemaPath.Some? && |Catalog[k].blockSchemaPath.value| > 0
  {
  }

  // ---------------------------------------------------------------------------
  // Dotted-path binding
  // ---------------------------------------------------------------------------

  /** Every key of `parts` is found, each in a mapping reached by the keys before it. */
  predicate PathPresent(current: Json, parts: seq<string>)
    decreases |parts|
  {
    |parts| == 0
    || (current.JObject? && parts[0] in current.fields
        && PathPresent(current.fields[parts[0]], parts[1..]))
  }

  /** The loop of `resolve_data_path`: step into nested mappings key by key. */
  function Walk(current: Json, parts: seq<string>): (r: Json)
    ensures !PathPresent(current, parts) ==> r == JNull
    decreases |parts|
  {
    if |parts| == 0 then current
    else if current.JObject? && parts[0] in current.fields then Walk(current.fields[parts[0]], parts[1..])
    else JNull
  }

  /** `resolve_data_path(data, path)`: the value at a dot-separated path, or
      `null` as soon as a key is missing or a value on the way is not a mapping. */
  function ResolveDataPath(data: Json, path: string): (r: Json)
    ensures !PathPresent(data, Split(path, '.')) ==> r == JNull
  {
    Walk(data, Split(path, '.'))
  }

  /** Walking a concatenated key list is walking the first list, then the second
      from where the first stopped (or from `null` after a miss). */
  lemma {:induction false} WalkConcat(d: Json, xs: seq<string>, ys: seq<string>)
    ensures Walk(d, xs + ys) == Walk(Walk(d, xs), ys)
    decreases |xs|
  {
    if |xs| == 0 {
      assert xs + ys == ys;
    } else {
      assert (xs + ys)[0] == xs[0];
      assert (xs + ys)[1..] == xs[1..] + ys;
      if d.JObject? && xs[0] in d.fields {
        WalkConcat(d.fields[xs[0]], xs[1..], ys);
      }
    }
  }

  /** Path composition: resolving `p.q` is resolving `q` in the result of
      resolving `p`, where resolving on a non-mapping gives `null`. */
  lemma ResolveComposes(d: Json, p: string, q: string)
    ensures ResolveDataPath(d, p + "." + q) == ResolveDataPath(ResolveDataPath(d, p), q)
  {
    SplitAround(p, q, '.');
    WalkConcat(d, Split(p, '.'), Split(q, '.'));
  }

  /** A path spelled from dot-free keys resolves to the value reached by
      walking those keys one by one. */
  lemma ResolveKeys(d: Json, keys: seq<string>)
    requires |keys| >= 1
    requires forall i | 0 <= i < |keys| :: '.' !in keys[i]
    ensures ResolveDataPath(d, Join(keys, ".")) == Walk(d, keys)
  {
    SplitJoin(keys, '.');
  }

  /** A dot-free key present in a mapping resolves to its value. */
  lemma ResolveSingleKey(d: Json, key: string)
    requires '.' !in key && d.JObject? && key in d.fields
    ensures ResolveDataPath(d, key) == d.fields[key]
  {
    ResolveKeys(d, [key]);
    assert [key][1..] == [];
  }

  /** `extract_component_data`: `{}` for a missing or empty data map, otherwise
      exactly the data map's parameters, each bound to the value at its path. */
  function ExtractComponentData(componentType: string, dataMap: Option<map<string, string>>, data: Json)
    : (r: map<string, Json>)
    ensures dataMap.None? || dataMap.value == map[] ==> r == map[]
    ensures dataMap.Some? ==> r.Keys == dataMap.value.Keys
    ensures dataMap.Some? ==> forall p | p in r :: r[p] == ResolveDataPath(data, dataMap.value[p])
    ensures dataMap.Some? ==> forall p | p in r && !PathPresent(data, Split(dataMap.value[p], '.')) :: r[p] == JNull
  {
    match dataMap
    case None => map[]
    case Some(dm) =>
      if |dm| == 0 then map[]
      else map p | p in dm :: ResolveDataPath(data, dm[p])
  }
}
