# klartex document assembly, modelled in Dafny

klartex turns structured JSON payloads into PDF documents. A payload is either
a free-form `body` of typed blocks (the block engine) or a set of fields
that a declarative *recipe* binds into components. The pipeline does the following:

* looks the template up and validates the payload against its schema;
* escapes every string leaf for LaTeX;
* builds a context for the template engine from the component registry and
  the page templates (named page chrome);
* runs `xelatex` twice.

This project models the pure decision logic of that pipeline and proves
what it promises.

| file | module | models |
|---|---|---|
| `wrappers.dfy` | `Wrappers` | `Option` and `Result` |
| `text.dfy` | `Text` | `str.split`, `str.join`, `sorted()` on names, `str()` of integers, `s[-n:]` |
| `json.dfy` | `JsonData` | the payload value (string, integer, boolean, null, list, string-keyed mapping), Python truthiness, `dict.get`, `str()` |
| `errors.dfy` | `Errors` | every exception the core raises, with its Python class and message |
| `tex_escape.dfy` | `TexEscape` | `tex_escape` as written, the per-character escape, `escape_data` |
| `components.dfy` | `Components` | the component catalog, `get_component`, `list_components`, `resolve_data_path`, `extract_component_data` |
| `page_templates.dfy` | `PageTemplates` | `_load_all`, `PageTemplate` flags, `load_page_template`, `list_page_templates` |
| `block_engine.dfy` | `BlockEngine` | `KNOWN_BLOCK_TYPES`, `_extract_doc_title`, `prepare_block_context` |
| `recipe.dfy` | `Recipe` | `load_recipe` after parsing, `_resolve_path`, metadata rows, component binding, `.sty` packages, `prepare_recipe_context` |
| `renderer.dfy` | `Renderer` | the template check in `render`, `_select_engine`, the pass loop of `_compile_tex` |

Everything outside the process is a parameter:

* the page template catalog (`map<string, PageTemplateDef>`);
* `read_page_template_source` (`string -> string`);
* the Jinja engine (`(string, map<string, Json>) -> Option<string>` for expressions, and functions from a context to LaTeX source for the meta-templates);
* `jsonschema.validate` (a predicate);
* the parsed recipe file (`string -> RawRecipe`);
* each `xelatex` run (`nat -> PassResult`, the k-th run's exit code and output, or a timeout);
* the PDF left on disk (`Option<Bytes>`).

Points where the code does something a reader might not expect; the model follows the code:

* Title scan. The docstring of `_extract_doc_title` (klartex/block_engine.py:82) reads as if a titled title page were preferred. The loop at klartex/block_engine.py:84-88 instead stops at the first block in document order that is a `title_page` with a truthy title, or any `heading`. A heading placed before a title page therefore wins (`BlockEngine.HeadingBeforeTitlePage`).
* Metadata suffixes. The suffix loop (klartex/recipe.py:189-192) drops only suffix values that are `None`, so an empty string survives as an empty part.
* Timeouts. A run that times out raises `subprocess.TimeoutExpired` out of `_compile_tex`. It is not turned into a compilation failure (`Errors.CompilationTimedOut`).
* Missing `body`. Block data without `body` raises a plain `ValueError` (`Errors.MissingBody`).
* Flag values. `page_numbers` and `first_page_header` return whatever value the override or the catalog default holds, not necessarily a boolean.

## Model

| member | source | states |
|---|---|---|
| TexEscape.EscapeChar | klartex/tex_escape.py:3-14 | a character outside `\ { } $ # % & _ ~ ^` is kept; a special one becomes its own table entry, which starts with a backslash and is at least two characters long |
| TexEscape.EscapeTextUsesTable | klartex/tex_escape.py:3-14 | each special character escapes to its fixed table entry, e.g. `$` to `\$` and `~` to `\textasciitilde{}` |
| TexEscape.EscapeText | klartex/tex_escape.py:17-26 | the output is at least as long as the input, and a string with no special character is returned unchanged |
| TexEscape.TexEscapeAgreesOnNulFree | klartex/tex_escape.py:17-26 | on input without NUL characters, `tex_escape` with its placeholder pass equals the per-character escape, so no brace or backslash it inserts is escaped again |
| TexEscape.PlaceholderCollision | klartex/tex_escape.py:20-25 | the placeholder text `\0BACKSLASH\0` contains no special character, yet `tex_escape` turns it into `\textbackslash{}`, exactly the output for a lone backslash |
| TexEscape.EscapeTextConcat | klartex/tex_escape.py:19-25 | escaping a concatenation is the concatenation of the escapes |
| TexEscape.UnescapeEscapeText | klartex/tex_escape.py:17-26 | reading escaped text back by the table recovers the input, so the output holds no raw special character and loses nothing |
| TexEscape.EscapeTextInjective | klartex/tex_escape.py:17-26 | two different strings never escape to the same text |
| TexEscape.EscapeData | klartex/tex_escape.py:29-37 | the result has the payload's shape at every depth: the same mapping keys (unescaped), the same list lengths, the same numbers, booleans and nulls, and every string leaf, however deeply nested, replaced by its per-character escape, which reads back to the original |
| TexEscape.TexEscapeData | klartex/tex_escape.py:29-37 | `escape_data` as written: a string becomes `tex_escape` of it; lists keep their length, mappings their keys, and numbers, booleans and nulls pass through |
| TexEscape.EscapeDataAgreesOnNulFree | klartex/tex_escape.py:29-37 | on a payload with no NUL character in any string leaf, `escape_data` as written equals the corrected whole-tree escape |
| TexEscape.EscapeDataCollision | klartex/tex_escape.py:29-37 | `escape_data` as written maps a payload holding the placeholder text and one holding a lone backslash to the same tree; the corrected escape keeps them apart |
| TexEscape.EscapeDataStringLeaf | klartex/tex_escape.py:31-32 | a string leaf without NUL characters becomes `tex_escape` of it |
| TexEscape.EscapeDataRoundTrip | klartex/tex_escape.py:29-37 | reading every string leaf back restores the whole payload |
| Components.CatalogNamesMatch | klartex/components.py:38-163 | every catalog entry is filed under its own name |
| Components.SharedTextSchema | klartex/components.py:45-56 | "text" and "preamble" point at the same block schema file |
| Components.LegacyWithoutSchema | klartex/components.py:117-163 | the nine legacy recipe names are registered and have no block schema |
| Components.BlockKindsWithSchema | klartex/components.py:37-163 | every registered name outside the legacy ones has a non-empty block schema path |
| Components.GetComponent | klartex/components.py:166-175 | succeeds exactly for catalog names and returns the entry of that name; otherwise fails with the unknown name and the sorted, duplicate-free list of all names |
| Components.UnknownComponentMessage | klartex/components.py:172-174 | an unregistered name raises a `ValueError` whose message starts "Unknown component" |
| Components.ListComponents | klartex/components.py:178-180 | the listing has exactly the catalog's names, each bound to what `get_component` returns for it |
| Components.Walk | klartex/components.py:192-197 | a walk that meets a missing key or a non-mapping on the way yields null |
| Components.ResolveDataPath | klartex/components.py:183-197 | a dotted path that is not fully present yields null |
| Components.ResolveKeys | klartex/components.py:190-197 | resolving the dot-joined keys is walking the keys one by one |
| Components.ResolveSingleKey | klartex/components.py:190-197 | a path without a dot present in the payload resolves to that key's value |
| Components.WalkConcat | klartex/components.py:192-197 | walking two key lists in sequence is walking the first, then the second from where it ended |
| Components.ResolveComposes | klartex/components.py:190-197 | resolving `p + "." + q` is resolving `q` in the value at `p` |
| Components.ExtractComponentData | klartex/components.py:200-220 | `{}` for a missing or empty data map; otherwise exactly the data map's parameters, each bound to the value at its path, null where the path is missing |
| Text.Split | klartex/components.py:190 | `str.split` gives at least one part, and no part holds the separator |
| Text.JoinSplit | klartex/components.py:190 | joining the parts of a split with the separator gives the string back |
| Text.SplitJoin | klartex/components.py:190 | splitting separator-free parts joined by the separator gives the parts back |
| Text.SortedNames | klartex/components.py:173 | `sorted()` of a set of names lists each name exactly once, in ascending order |
| Text.Tail | klartex/renderer.py:202 | `s[-n:]` is a suffix of `s`; for `n > 0` its length is `min(len(s), n)`, and `s[-0:]` is the whole string |
| Text.StrRepr | klartex/recipe.py:190-194 | `repr()` of a string is enclosed in double quotes exactly when the text holds a single quote and no double quote, otherwise in single quotes; ASCII text without quote, backslash or control character appears between the quotes unchanged |
| Text.StrReprRoundTrip | klartex/recipe.py:190-194 | the text between the quotes of `repr()` reads back to the string: backslashes, the chosen quote, tabs, newlines, carriage returns and other control characters are escaped, and nothing is lost |
| Text.StrReprInjective | klartex/recipe.py:190-194 | two different strings never have the same `repr()` |
| Text.StrReprDoublesBackslash | klartex/recipe.py:190-194 | a backslash in a nested string is doubled: `a\&` is written `'a\\&'` |
| Text.StrReprSwitchesQuote | klartex/recipe.py:190-194 | `it's` is written `"it's"` |
| PageTemplates.LoadAll | klartex/page_templates.py:62-74 | the catalog holds every file's name, files each definition under its own name, and a later file with the same name replaces an earlier one |
| PageTemplates.ParseSpec | klartex/page_templates.py:94-99 | a bare name has no overrides; a mapping with "name" overrides with exactly its other keys; any other spec fails |
| PageTemplates.LoadPageTemplate | klartex/page_templates.py:77-115 | a bare name or a mapping's string "name" succeeds exactly when the catalog has it, resolving with the caller's overrides and the catalog's description, include and defaults (`""`, `_header_standard.jinja` and `{}` when absent); an unknown name fails listing the sorted catalog names; a number, boolean or null name fails as unknown under its `str()`; a list or mapping name is unhashable; a mapping without "name" and a spec that is neither string nor mapping fail with their own errors |
| PageTemplates.BareNameFlags | klartex/page_templates.py:43-55 | with no overrides, `page_numbers` and `first_page_header` are the catalog defaults, else `true` |
| PageTemplates.OverridePageNumbers | klartex/page_templates.py:43-55 | overriding `page_numbers` sets it and leaves `first_page_header` at its catalog default |
| PageTemplates.OverrideFirstPageHeader | klartex/page_templates.py:50-55 | overriding `first_page_header` sets it and leaves `page_numbers` at its catalog default |
| PageTemplates.UnknownPageTemplateMessage | klartex/page_templates.py:101-106 | an unknown name raises a `ValueError` starting "Unknown page template" |
| PageTemplates.ListPageTemplates | klartex/page_templates.py:119-135 | one summary per catalog name, strictly ascending by name, with the description and defaults (or `""` and `{}`) |
| BlockEngine.KnownBlockTypesExcludeLegacy | klartex/block_engine.py:28-30 | the block types are exactly the catalog names with a block schema: all names but the legacy ones |
| BlockEngine.KnownBlockTypesAreBlockKinds | klartex/block_engine.py:28-30 | the block types are the thirteen kinds heading … latex |
| BlockEngine.FirstQualifyingWins | klartex/block_engine.py:84-88 | the first block that is a titled `title_page` or a `heading` decides the title; later blocks are ignored |
| BlockEngine.NoQualifyingBlock | klartex/block_engine.py:84-89 | with no qualifying block the title is `""` |
| BlockEngine.ScanFailsOnNonMapping | klartex/block_engine.py:84-87 | a non-mapping block reached before any qualifying block fails the scan |
| BlockEngine.HeadingBeforeTitlePage | klartex/block_engine.py:84-88 | a heading before a titled title page decides the title |
| BlockEngine.SkipsUntitledTitlePage | klartex/block_engine.py:85-88 | any run of title pages with an empty or missing title is skipped, and the heading after it decides the title, `""` when it has no text |
| BlockEngine.PrepareBlockContext | klartex/block_engine.py:36-76 | data without "body" fails first; the body is passed unchanged; `lang` defaults to "sv"; the page template is exactly what `load_page_template` gives for the payload's spec, "formal" when absent, and its error is passed through; a supplied page template source is used verbatim, otherwise the one read for the resolved name; the title is the scan's and its error is passed through; success exactly when the page template resolves and the scan succeeds |
| Recipe.LoadComponentsWith | klartex/recipe.py:107-118 | every component type is looked up at load time; the load succeeds exactly when all lookups do, keeping order, types, specs and the defaults `{}`; otherwise it fails with the error of the first failed lookup |
| Recipe.FirstFailedLookup | klartex/recipe.py:108-110 | a failed component load reports the error of a failed lookup |
| Recipe.LoadRecipe | klartex/recipe.py:86-132 | an invalid recipe fails validation; a failed component load is passed through; otherwise the defaults apply (lang "sv", title "", page_template "formal", no metadata) and the components are exactly the loaded list, each with its registry spec |
| Recipe.UnknownComponentFailsLoad | klartex/recipe.py:108-110 | a recipe naming an unregistered component fails at load time with a `ValueError` starting "Unknown component" |
| Recipe.Evaluate | klartex/recipe.py:160-172 | an expression the template engine rejects falls back to its raw text; otherwise the engine's output is used |
| Recipe.ResolvePath | klartex/recipe.py:236-245 | `_resolve_path` agrees with `resolve_data_path` on every payload and path |
| Recipe.SuffixParts | klartex/recipe.py:188-192 | there are no parts exactly when every suffix resolves to null; when none does, the parts are `str()` of each value in field order |
| Recipe.SuffixPartsConcat | klartex/recipe.py:189-192 | the parts of consecutive suffix lists are the parts of each list, in order |
| Recipe.SuffixPartsSingle | klartex/recipe.py:190-192 | one suffix field contributes `str()` of its value, or nothing when it is null |
| Recipe.NullSuffixDropped | klartex/recipe.py:190-192 | a suffix field that resolves to null is dropped and the other fields' parts are kept in order, whatever they resolve to |
| Recipe.MetadataRowFor | klartex/recipe.py:176-199 | an optional rule whose field is null gives no row; otherwise the row keeps the label, shows `""` for a missing value, and appends `", "` plus the surviving suffixes joined by the separator (default `", "`) when any survive |
| Recipe.ResolveMetadata | klartex/recipe.py:175-199 | at most one row per rule; when every rule yields a row, the rows are exactly those rows in rule order |
| Recipe.ResolveMetadataConcat | klartex/recipe.py:175-199 | the rows of consecutive rule lists are the rows of each list, in order |
| Recipe.OptionalMissingFieldSkipped | klartex/recipe.py:179-181 | an optional rule with a missing field contributes nothing |
| Recipe.RequiredMissingFieldIsEmpty | klartex/recipe.py:179-199 | any rule that is not optional, whose field and suffix fields are all missing, gives one row with its label and the value `""` |
| Recipe.ResolveComponents | klartex/recipe.py:202-210 | one resolved component per recipe component, in order, with the same type, options and spec and the fields bound through its data map |
| Recipe.PackageListMembers | klartex/recipe.py:215-218 | a package is listed exactly when some component's spec requires it |
| Recipe.DedupMembers | klartex/recipe.py:213-218 | deduplication keeps exactly the packages of its input |
| Recipe.DedupDistinct | klartex/recipe.py:213-218 | deduplication leaves no duplicates |
| Recipe.DedupFirstSeen | klartex/recipe.py:213-218 | deduplicated packages appear in the order of their first occurrence |
| Recipe.DedupOfDistinct | klartex/recipe.py:213-218 | a duplicate-free list is left as it is |
| Recipe.CollectStyPackages | klartex/recipe.py:212-218 | the `seen`-set loop yields the first-seen deduplication: distinct packages, exactly the non-empty packages the specs require |
| Recipe.PrepareRecipeContext | klartex/recipe.py:135-233 | succeeds exactly when the evaluated page template resolves, and otherwise fails with exactly the error of loading it; the title is the evaluated title, falling back to the raw text; the include is the resolved page template's; the context carries the recipe, payload and lang, exactly the resolved metadata rows, exactly the resolved components and the first-seen deduplication of the required packages |
| Recipe.ContextPackagesFirstSeen | klartex/recipe.py:212-218 | the packages of a prepared context appear in the order of their first requirement |
| Recipe.ContextSkipsOptionalMissing | klartex/recipe.py:175-181 | in a prepared context, an optional rule with a missing field leaves exactly the rows of the other rules |
| Renderer.SelectEngine | klartex/renderer.py:106-137 | "auto" prefers legacy, then recipe, else fails; "legacy" and "recipe" succeed exactly when that source exists; any other engine is invalid; recipe is chosen only with a recipe source, legacy only with a legacy source |
| Renderer.AutoAgreesWithOnlySource | klartex/renderer.py:111-133 | with exactly one source, "auto" chooses as forcing that source does |
| Renderer.AutoPrefersLegacy | klartex/renderer.py:111-137 | with both sources, the recipe path is taken only when forced |
| Renderer.RunPasses | klartex/renderer.py:186-203 | runs stop at the first one that is not clean and report its error; with all runs clean, all of them ran |
| Renderer.Compile | klartex/renderer.py:186-209 | one or two runs; success exactly when both runs exit 0 and the PDF exists; the first failing run decides the error and the number of runs; a missing PDF after clean runs is its own error; a diagnostic holds at most 2000 characters |
| Renderer.CompileTex | klartex/renderer.py:186-209 | the loop with its early exits computes exactly the outcome above |
| Renderer.FirstFailureAborts | klartex/renderer.py:199-203 | after a failing first run the second run cannot influence the outcome |
| Renderer.FailureDiagnostic | klartex/renderer.py:199-203 | a nonzero exit raises a `RuntimeError` with the exit code and the last 2000 characters of output |
| Renderer.CompileSource | klartex/renderer.py:186-209 | compiling one LaTeX source succeeds exactly when both runs are clean and the PDF exists, returning that PDF; the first run that is not clean decides the error; clean runs without a PDF fail with the missing-artifact error |
| Renderer.RenderRecipe | klartex/renderer.py:150-158 | the recipe path succeeds exactly when the recipe loads and its context resolves; a load or context error is passed through; on success it expands exactly the context prepared from the loaded recipe over the escaped payload |
| Renderer.RenderSource | klartex/renderer.py:72-100 | an unknown template fails with the sorted names before anything else; an invalid payload fails validation; an engine-selection error is passed through; the legacy path expands the payload escaped by the corrected escape; the recipe path is exactly the recipe rendering of that payload |
| Renderer.RenderSourceAsWritten | klartex/renderer.py:91-100 | on a payload with no NUL character in any string leaf, the rendered source is exactly the one produced with `escape_data` as written, on the legacy and the recipe path |
| Renderer.RecipePathContext | klartex/renderer.py:92-100 | a successful recipe render expands a context whose payload has every string leaf escaped and reads back to the caller's payload |
| Renderer.Render | klartex/renderer.py:72-103 | an error before compilation is passed through; otherwise the outcome is exactly the compilation of the rendered source, so the PDF is returned exactly when both runs are clean and it exists |
| Renderer.UnknownTemplateFailsFirst | klartex/renderer.py:72-76 | an unknown template fails with "Unknown template" and the sorted, complete list of names, whatever the payload, engine or later stages |
| Errors.LookupMessages | klartex/components.py:174 | lookup failures open with "Unknown component", "Unknown page template" or "Unknown template" |

## Left out

- File and process I/O is not modelled. This covers reading YAML/JSON files, `get_block_schema`, `_load_all`'s directory scan, the temporary directory, symlinks, `TEXINPUTS` and the `xelatex` subprocess. Their results are parameters instead.
- Output bytes are not decoded. A run's output is taken as already decoded text; `decode(errors='replace')` is not modelled.
- The 30-second timeout is not modelled as time. A run that times out is `TimedOut`, and it aborts with `Errors.CompilationTimedOut`.
- `jsonschema.validate` is an abstract predicate, and its error messages are not modelled.
- Jinja rendering is abstract. Expression evaluation returns `None` for a template error. An exception of any other class from the engine is not modelled.
- `load_branding` and the `brand` value are left out. They are a file load passed through to the template, so branding errors between validation and escaping are not modelled either.
- The module caches are left out: `_registry`, `_page_templates_cache`, `_recipe_schema` and `reset_cache`. Catalogs and registries are immutable parameters.
- `discover_templates` is left out (a directory scan). `TemplateInfo` carries the fields the renderer reads: `has_legacy`, `has_recipe` and `recipe_path`.
- The CLI and the HTTP front end are left out, because they are thin wrappers.
- Block-mode dispatch, per-block schema validation and the restoring of escaped `type`/`latex` fields are left out. They are not part of `render` as modelled.
- Floats are left out. `JNum` holds an integer and numbers pass through untouched.
- Mapping order is not modelled: payload mappings are unordered `map`s, so `str()` of a mapping lists its keys in sorted order rather than insertion order. These strings appear only in one error message and in metadata values built from containers.
- JsonData.PyRepr: `repr()` of a string keeps every character outside ASCII as it is. Python escapes the non-printable ones (`\xNN`, `\uNNNN`, `\UNNNNNNNN`), and which are printable depends on the Unicode database, which is not modelled. ASCII is modelled exactly (`Text.StrRepr`).
- `Recipe.source_path` is left out, because it is only a file location.
- Recipe.LoadRecipe: the recipe is given in the typed shape the recipe schema admits, so a recipe with wrongly typed fields, which that schema rejects, is not modelled.
- PageTemplates.LoadAll: each page template file is given in the typed shape its definitions use: a string `name`, optional string `description` and `include`, and an optional mapping `defaults`. A file with `defaults: null`, a non-string field or a missing `name` is not modelled, and neither is the error `_load_all` or `load_page_template` would raise for it.
- PageTemplates.ListPageTemplates: requires a catalog that files each definition under its own name. `_load_all` builds catalogs like that (`PageTemplates.LoadAll`).
- Renderer.RenderSource: `render` is modelled with the corrected escape `TexEscape.EscapeData` in place of `escape_data` as written. The two differ only on payloads with a NUL character in a string leaf (see Findings); on every other payload the rendered source is the one `render` produces (`Renderer.RenderSourceAsWritten`).
- Renderer.Render: inherits the corrected escape from `Renderer.RenderSource`, so it matches `render` only on payloads without NUL characters.
- Renderer.RecipePathContext: the read-back to the caller's payload holds for the corrected escape. With `escape_data` as written it fails on colliding payloads that hold the placeholder text (`TexEscape.EscapeDataCollision`).
- TexEscape.EscapeData: uses the corrected per-character escape, so it agrees with `escape_data` as written (`TexEscape.TexEscapeData`) only on payloads without NUL characters in their string leaves (`TexEscape.EscapeDataAgreesOnNulFree`; see Findings).

## Findings

| source | as written | input that shows it | evidently intended | confidence | as-written member | corrected member |
|---|---|---|---|---|---|---|
| klartex/tex_escape.py:20-25 | `tex_escape` marks backslashes with the in-band placeholder `\0BACKSLASH\0` and restores every occurrence of that text, including one already present in the input | `"\x00BACKSLASH\x00"`, a string with no special character, is escaped to `\textbackslash{}`, the same output as `"\\"` | escape each character by its table entry (non-special characters unchanged), so distinct inputs stay distinct | not executed; reachable only with NUL characters in the payload | TexEscape.PlaceholderCollision | TexEscape.EscapeText |
| klartex/tex_escape.py:29-37 | `escape_data` applies `tex_escape` to every string leaf, so it inherits the placeholder collision at any depth | the payloads `{"k": "\x00BACKSLASH\x00"}` and `{"k": "\\"}` escape to the same tree | escape every string leaf per character, so distinct payloads stay distinct and read back | not executed; reachable only with NUL characters in the payload | TexEscape.EscapeDataCollision | TexEscape.EscapeData |
