/** The block engine's context builder (klartex/block_engine.py): a free-form
    `body` of typed blocks, page chrome, language and a document title. */
module BlockEngine {
  import opened Wrappers
  import opened JsonData
  import opened Errors
  import opened Components
  import opened PageTemplates

  /** `KNOWN_BLOCK_TYPES`: the component names whose block schema path is set (and non-empty). */
  const KnownBlockTypes: set<string> :=
    set name | name in Catalog && Catalog[name].blockSchemaPath.Some? && |Catalog[name].blockSchemaPath.value| > 0

  /** `KNOWN_BLOCK_TYPES` is every catalog name except the legacy recipe-only ones. */
  lemma KnownBlockTypesExcludeLegacy()
    ensures KnownBlockTypes == Catalog.Keys - LegacyNames
  {
    LegacyWithoutSchema();
    BlockKindsWithSchema();
    forall n ensures n in KnownBlockTypes <==> n in Catalog.Keys - LegacyNames {
    }
  }

  /** ... which are exactly the thirteen block kinds. */
  lemma KnownBlockTypesAreBlockKinds()
    ensures KnownBlockTypes == {
      "heading", "text", "preamble", "title_page", "parties", "clause", "signatures",
      "metadata_table", "attendees", "agenda", "name_roster", "page_break", "latex"}
  {
    KnownBlockTypesExcludeLegacy();
    CatalogKeys();
  }

  /** The catalog's names, split into block kinds and legacy names. */
  lemma CatalogKeys()
    ensures Catalog.Keys - LegacyNames == {
      "heading", "text", "preamble", "title_page", "parties", "clause", "signatures",
      "metadata_table", "attendees", "agenda", "name_roster", "page_break", "latex"}
  {
  }

  // ---------------------------------------------------------------------------
  // The document title
  // ---------------------------------------------------------------------------

  /** A block that ends the title scan: a `title_page` with a truthy title, or any `heading`. */
  predicate Qualifies(block: Json) {
    && block.JObject?
    && (|| (Get(block.fields, "type", JNull) == JStr("title_page") && Truthy(Get(block.fields, "title", JNull)))
        || Get(block.fields, "type", JNull) == JStr("heading"))
  }

  /** The title a qualifying block contributes: a title page's title, or a heading's text ("" when absent). */
  function TitleOf(block: Json): Json
    requires Qualifies(block)
  {
    if Get(block.fields, "type", JNull) == JStr("title_page") then block.fields["title"]
    else Get(block.fields, "text", JStr(""))
  }

  /** The loop of `_extract_doc_title` over a list of blocks. */
  function ScanTitle(blocks: seq<Json>): Result<Json, Error>
    decreases |blocks|
  {
    if |blocks| == 0 then Success(JStr(""))
    else
      match blocks[0]
      case JObject(b) =>
        if Get(b, "type", JNull) == JStr("title_page") && Truthy(Get(b, "title", JNull)) then Success(b["title"])
        else if Get(b, "type", JNull) == JStr("heading") then Success(Get(b, "text", JStr("")))
        else ScanTitle(blocks[1..])
      case _ => Failure(BlockNotMapping)
  }

  /** `_extract_doc_title(body)`. Iterating a string or a mapping yields strings,
      on which `.get` fails, so only empty ones get through. */
  function ExtractDocTitle(body: Json): Result<Json, Error> {
    match body
    case JList(blocks) => ScanTitle(blocks)
    case JStr(s) => if |s| == 0 then Success(JStr("")) else Failure(BlockNotMapping)
    case JObject(m) => if |m| == 0 then Success(JStr("")) else Failure(BlockNotMapping)
    case _ => Failure(BodyNotIterable)
  }

  /** The first qualifying block decides the title; everything after it is ignored. */
  lemma {:induction false} FirstQualifyingWins(blocks: seq<Json>, i: nat)
    requires i < |blocks| && Qualifies(blocks[i])
    requires forall k | 0 <= k < i :: blocks[k].JObject? && !Qualifies(blocks[k])
    ensures ScanTitle(blocks) == Success(TitleOf(blocks[i]))
    decreases i
  {
    if i > 0 {
      assert blocks[0].JObject? && !Qualifies(blocks[0]);
      forall k | 0 <= k < i - 1 ensures blocks[1..][k].JObject? && !Qualifies(blocks[1..][k]) {
        assert blocks[1..][k] == blocks[k + 1];
      }
      FirstQualifyingWins(blocks[1..], i - 1);
    }
  }

  /** With no qualifying block (and only mappings) the title is "". */
  lemma {:induction false} NoQualifyingBlock(blocks: seq<Json>)
    requires forall k | 0 <= k < |blocks| :: blocks[k].JObject? && !Qualifies(blocks[k])
    ensures ScanTitle(blocks) == Success(JStr(""))
    decreases |blocks|
  {
    if |blocks| > 0 {
      forall k | 0 <= k < |blocks| - 1 ensures blocks[1..][k].JObject? && !Qualifies(blocks[1..][k]) {
        assert blocks[1..][k] == blocks[k + 1];
      }
      NoQualifyingBlock(blocks[1..]);
    }
  }

  /** The scan fails exactly when a non-mapping comes before every qualifying block. */
  lemma {:induction false} ScanFailsOnNonMapping(blocks: seq<Json>, i: nat)
    requires i < |blocks| && !blocks[i].JObject?
    requires forall k | 0 <= k < i :: blocks[k].JObject? && !Qualifies(blocks[k])
    ensures ScanTitle(blocks) == Failure(BlockNotMapping)
    decreases i
  {
    if i > 0 {
      forall k | 0 <= k < i - 1 ensures blocks[1..][k].JObject? && !Qualifies(blocks[1..][k]) {
        assert blocks[1..][k] == blocks[k + 1];
      }
      ScanFailsOnNonMapping(blocks[1..], i - 1);
    }
  }

  /** A heading placed before a title page wins, even though the title page has a title. */
  lemma HeadingBeforeTitlePage(text: Json, title: Json, later: seq<Json>)
    requires Truthy(title)
    ensures ScanTitle([JObject(map["type" := JStr("heading"), "text" := text]),
                       JObject(map["type" := JStr("title_page"), "title" := title])] + later)
            == Success(text)
  {
    var blocks := [JObject(map["type" := JStr("heading"), "text" := text]),
                   JObject(map["type" := JStr("title_page"), "title" := title])] + later;
    FirstQualifyingWins(blocks, 0);
  }

  /** Title pages with an empty or missing title are skipped: a heading after
      any run of them decides the title, with "" for a heading without text. */
  lemma SkipsUntitledTitlePage(untitled: seq<Json>, heading: map<string, Json>, later: seq<Json>)
    requires forall k | 0 <= k < |untitled| ::
               && untitled[k].JObject?
               && Get(untitled[k].fields, "type", JNull) == JStr("title_page")
               && !Truthy(Get(untitled[k].fields, "title", JNull))
    requires Get(heading, "type", JNull) == JStr("heading")
    ensures ScanTitle(untitled + [JObject(heading)] + later) == Success(Get(heading, "text", JStr("")))
  {
    var blocks := untitled + [JObject(heading)] + later;
    forall k | 0 <= k < |untitled| ensures blocks[k].JObject? && !Qualifies(blocks[k]) {
      assert blocks[k] == untitled[k];
    }
    assert blocks[|untitled|] == JObject(heading);
    FirstQualifyingWins(blocks, |untitled|);
  }

  // ---------------------------------------------------------------------------
  // prepare_block_context
  // ---------------------------------------------------------------------------

  /** The context handed to the block engine's meta-template. */
  datatype BlockContext = BlockContext(
    body: Json,
    lang: Json,
    pageTemplateSource: string,
    pageTemplate: PageTemplate,
    docTitle: Json)

  /** `prepare_block_context(data, page_template_source)`. The page template
      catalog and the reading of a template's source file are parameters. */
  function PrepareBlockContext(
    data: map<string, Json>,
    pageTemplateSource: Option<string>,
    catalog: map<string, PageTemplateDef>,
    readSource: string -> string): (r: Result<BlockContext, Error>)
    ensures "body" !in data ==> r == Failure(MissingBody)
    ensures r.Success? ==> "body" in data && r.value.body == data["body"]
    ensures r.Success? ==> ("lang" in data ==> r.value.lang == data["lang"])
                           && ("lang" !in data ==> r.value.lang == JStr("sv"))
    ensures r.Success? ==> LoadPageTemplate(Get(data, "page_template", JStr("formal")), catalog)
                             == Success(r.value.pageTemplate)
    ensures r.Success? && "page_template" !in data ==> r.value.pageTemplate.name == "formal"
    ensures r.Success? && pageTemplateSource.Some? ==> r.value.pageTemplateSource == pageTemplateSource.value
    ensures r.Success? && pageTemplateSource.None? ==>
              r.value.pageTemplateSource == readSource(r.value.pageTemplate.name)
    ensures r.Success? ==> ExtractDocTitle(r.value.body) == Success(r.value.docTitle)
    ensures "body" in data ==>
              (r.Success? <==> LoadPageTemplate(Get(data, "page_template", JStr("formal")), catalog).Success?
                               && ExtractDocTitle(data["body"]).Success?)
    ensures "body" in data ==>
              var pt := LoadPageTemplate(Get(data, "page_template", JStr("formal")), catalog);
              && (pt.Failure? ==> r == Failure(pt.error))
              && (pt.Success? && ExtractDocTitle(data["body"]).Failure? ==>
                    r == Failure(ExtractDocTitle(data["body"]).error))
  {
    if "body" !in data then Failure(MissingBody)
    else
      var pageTemplate :- LoadPageTemplate(Get(data, "page_template", JStr("formal")), catalog);
      var source := if pageTemplateSource.None? then readSource(pageTemplate.name) else pageTemplateSource.value;
      var docTitle :- ExtractDocTitle(data["body"]);
      Success(BlockContext(data["body"], Get(data, "lang", JStr("sv")), source, pageTemplate, docTitle))
  }
}
