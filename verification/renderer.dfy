/** The rendering pipeline's decisions (klartex/renderer.py): template lookup,
    engine selection and the two-pass compiler loop. Everything that touches
    the file system, the template engine or the compiler is a parameter. */
module Renderer {
  import opened Wrappers
  import opened Text
  import opened JsonData
  import opened Errors
  import opened TexEscape
  import opened PageTemplates
  import opened Recipe

  /** A discovered template: its payload schema and which sources it has. */
  datatype TemplateInfo = TemplateInfo(
    name: string,
    description: string,
    schema: Json,
    hasLegacy: bool,
    hasRecipe: bool,
    recipePath: string)

  // ---------------------------------------------------------------------------
  // Engine selection
  // ---------------------------------------------------------------------------

  /** `_select_engine(template_info, engine)`: `true` for the recipe path,
      `false` for the legacy `.tex.jinja` path. */
  function SelectEngine(info: TemplateInfo, engine: string): (r: Result<bool, Error>)
    ensures r == Success(true) ==> info.hasRecipe
    ensures r == Success(false) ==> info.hasLegacy
    ensures engine == "auto" ==>
              && (r.Success? <==> info.hasLegacy || info.hasRecipe)
              && (info.hasLegacy ==> r == Success(false))
              && (r.Failure? ==> r.error == NoRenderSource(info.name))
    ensures engine == "legacy" ==> (r.Success? <==> info.hasLegacy) && (r.Success? ==> r.value == false)
                                   && (r.Failure? ==> r.error == NoLegacySource(info.name))
    ensures engine == "recipe" ==> (r.Success? <==> info.hasRecipe) && (r.Success? ==> r.value == true)
                                   && (r.Failure? ==> r.error == NoRecipeSource(info.name))
    ensures engine != "auto" && engine != "legacy" && engine != "recipe" ==> r == Failure(InvalidEngine(engine))
    ensures r.Failure? ==> r.error.Kind() == ValueError
  {
    if engine == "auto" then
      if info.hasLegacy then Success(false)
      else if info.hasRecipe then Success(true)
      else Failure(NoRenderSource(info.name))
    else if engine == "legacy" then
      if !info.hasLegacy then Failure(NoLegacySource(info.name)) else Success(false)
    else if engine == "recipe" then
      if !info.hasRecipe then Failure(NoRecipeSource(info.name)) else Success(true)
    else Failure(InvalidEngine(engine))
  }

  /** When a template has exactly one source, "auto" picks the engine that forcing that source picks. */
  lemma AutoAgreesWithOnlySource(info: TemplateInfo)
    requires info.hasLegacy != info.hasRecipe
    ensures SelectEngine(info, "auto") == SelectEngine(info, if info.hasLegacy then "legacy" else "recipe")
    ensures SelectEngine(info, "auto").Success?
  {
  }

  /** A template with both sources renders through the legacy path unless the recipe path is forced. */
  lemma AutoPrefersLegacy(info: TemplateInfo, engine: string)
    requires info.hasLegacy && info.hasRecipe
    ensures SelectEngine(info, engine).Success? <==> engine in {"auto", "legacy", "recipe"}
    ensures SelectEngine(info, engine) == Success(true) <==> engine == "recipe"
  {
  }

  // ---------------------------------------------------------------------------
  // Compilation
  // ---------------------------------------------------------------------------

  type Bytes = seq<bv8>

  /** The compiler runs this many times, for page references. */
  const MaxPasses: nat := 2

  /** A failure diagnostic keeps this many trailing characters of compiler output. */
  const TailLength: nat := 2000

  /** What one compiler run did: it exited with a code and output, or hit the timeout. */
  datatype PassResult = Exited(code: int, output: string) | TimedOut

  /** A run that lets compilation continue. */
  predicate Clean(p: PassResult) {
    p.Exited? && p.code == 0
  }

  /** The error a run that is not clean raises. */
  function PassFailure(p: PassResult): (e: Error)
    requires !Clean(p)
  {
    match p
    case TimedOut => CompilationTimedOut
    case Exited(code, output) => CompilationFailed(code, Tail(output, TailLength))
  }

  /** How far compilation got, and what it produced. */
  datatype CompileOutcome = CompileOutcome(passesRun: nat, result: Result<Bytes, Error>)

  /** The pass loop from pass `k` on: the number of the last pass run and the
      error of the first pass that is not clean, if any. */
  function RunPasses(runPass: nat -> PassResult, k: nat): (r: (nat, Option<Error>))
    requires k <= MaxPasses
    ensures k <= r.0 <= MaxPasses
    ensures r.1.None? <==> forall j | k <= j < MaxPasses :: Clean(runPass(j))
    ensures r.1.None? ==> r.0 == MaxPasses
    ensures r.1.Some? ==> k < r.0 && !Clean(runPass(r.0 - 1)) && r.1.value == PassFailure(runPass(r.0 - 1))
                          && forall j | k <= j < r.0 - 1 :: Clean(runPass(j))
    decreases MaxPasses - k
  {
    if k == MaxPasses then (k, None)
    else if !Clean(runPass(k)) then (k + 1, Some(PassFailure(runPass(k))))
    else RunPasses(runPass, k + 1)
  }

  /** `_compile_tex` on abstract runs: `runPass(k)` is what the k-th compiler
      run does and `artifact` the PDF present afterwards. */
  function Compile(runPass: nat -> PassResult, artifact: Option<Bytes>): (r: CompileOutcome)
    ensures 1 <= r.passesRun <= MaxPasses
    ensures r.result.Success? <==> (forall k | 0 <= k < MaxPasses :: Clean(runPass(k))) && artifact.Some?
    ensures r.result.Success? ==> r.passesRun == MaxPasses && r.result.value == artifact.value
    ensures forall k | 0 <= k < MaxPasses && !Clean(runPass(k)) && (forall j | 0 <= j < k :: Clean(runPass(j))) ::
              r == CompileOutcome(k + 1, Failure(PassFailure(runPass(k))))
    ensures (forall k | 0 <= k < MaxPasses :: Clean(runPass(k))) && artifact.None? ==>
              r == CompileOutcome(MaxPasses, Failure(NoArtifactProduced))
    ensures r.result.Failure? && r.result.error.CompilationFailed? ==> |r.result.error.tail| <= TailLength
  {
    var (passesRun, failure) := RunPasses(runPass, 0);
    if failure.Some? then CompileOutcome(passesRun, Failure(failure.value))
    else if artifact.None? then CompileOutcome(passesRun, Failure(NoArtifactProduced))
    else CompileOutcome(passesRun, Success(artifact.value))
  }

  /** The pass loop as written: `for _ in range(2)`, stopping at the first
      run that is not clean. */
  method CompileTex(runPass: nat -> PassResult, artifact: Option<Bytes>) returns (passesRun: nat, result: Result<Bytes, Error>)
    ensures CompileOutcome(passesRun, result) == Compile(runPass, artifact)
  {
    passesRun := 0;
    while passesRun < MaxPasses
      invariant passesRun <= MaxPasses
      invariant forall j | 0 <= j < passesRun :: Clean(runPass(j))
    {
      var pass := runPass(passesRun);
      passesRun := passesRun + 1;
      match pass
      case TimedOut =>
        return passesRun, Failure(CompilationTimedOut);
      case Exited(code, output) =>
        if code != 0 {
          return passesRun, Failure(CompilationFailed(code, Tail(output, TailLength)));
        }
    }
    if artifact.None? {
      return passesRun, Failure(NoArtifactProduced);
    }
    return passesRun, Success(artifact.value);
  }

  /** A failing first run stops compilation: the second run never happens, so
      its behaviour cannot matter. */
  lemma FirstFailureAborts(runPass: nat -> PassResult, other: nat -> PassResult, artifact: Option<Bytes>)
    requires !Clean(runPass(0)) && other(0) == runPass(0)
    ensures Compile(runPass, artifact) == Compile(other, artifact)
    ensures Compile(runPass, artifact).passesRun == 1
  {
  }

  /** The first run that is not clean decides the error. */
  lemma CompileFailsAt(runPass: nat -> PassResult, artifact: Option<Bytes>, k: nat)
    requires k < MaxPasses && !Clean(runPass(k))
    requires forall j | 0 <= j < k :: Clean(runPass(j))
    ensures Compile(runPass, artifact).result == Failure(PassFailure(runPass(k)))
  {
  }

  /** The error of a run that exited nonzero. */
  lemma ExitFailure(run: PassResult)
    requires run.Exited? && run.code != 0
    ensures var e := PassFailure(run);
            && e.Kind() == RuntimeError
            && e.exitCode == run.code
            && |e.tail| == (if |run.output| < TailLength then |run.output| else TailLength)
            && run.output == run.output[..|run.output| - |e.tail|] + e.tail
  {
    var tail := Tail(run.output, TailLength);
    assert PassFailure(run) == CompilationFailed(run.code, tail);
  }

  /** The diagnostic of a failed run: the exit code and the last 2000 characters of its output. */
  lemma FailureDiagnostic(runPass: nat -> PassResult, artifact: Option<Bytes>, k: nat)
    requires k < MaxPasses && runPass(k).Exited? && runPass(k).code != 0
    requires forall j | 0 <= j < k :: Clean(runPass(j))
    ensures var r := Compile(runPass, artifact).result;
            && r.Failure? && r.error.Kind() == RuntimeError
            && r.error.exitCode == runPass(k).code
            && |r.error.tail| == (if |runPass(k).output| < TailLength then |runPass(k).output| else TailLength)
            && runPass(k).output == runPass(k).output[..|runPass(k).output| - |r.error.tail|] + r.error.tail
  {
    CompileFailsAt(runPass, artifact, k);
    ExitFailure(runPass(k));
  }

  // ---------------------------------------------------------------------------
  // render
  // ---------------------------------------------------------------------------

  /** What `render` calls that is not modelled here: schema validation, the
      template engine, recipe files, page templates and the compiler. */
  datatype Environment = Environment(
    /** `jsonschema.validate(data, schema)` accepts the payload. */
    validates: (Json, Json) -> bool,
    /** `_render_legacy`: expand `<name>/<name>.tex.jinja` against the escaped payload. */
    expandLegacy: (string, Json) -> string,
    /** A recipe file, parsed, by path. */
    recipeFile: string -> RawRecipe,
    /** The recipe schema. */
    recipeValid: RawRecipe -> bool,
    /** Title and page-template expressions. */
    evalExpr: (string, map<string, Json>) -> Option<string>,
    pageTemplates: map<string, PageTemplateDef>,
    /** Expand `_recipe_base.tex.jinja` against a recipe context. */
    expandRecipe: RecipeContext -> string,
    /** The k-th compiler run on a source. */
    runPass: (string, nat) -> PassResult,
    /** The PDF left behind after compiling a source. */
    artifact: string -> Option<Bytes>)

  /** `_render_recipe`: load the recipe, build its context over the escaped payload, expand. */
  function RenderRecipe(info: TemplateInfo, escaped: map<string, Json>, env: Environment): (r: Result<string, Error>)
    ensures r.Success? <==>
              && LoadRecipe(env.recipeFile(info.recipePath), env.recipeValid).Success?
              && PrepareRecipeContext(LoadRecipe(env.recipeFile(info.recipePath), env.recipeValid).value,
                                      escaped, env.evalExpr, env.pageTemplates).Success?
    ensures var loaded := LoadRecipe(env.recipeFile(info.recipePath), env.recipeValid);
            && (loaded.Failure? ==> r == Failure(loaded.error))
            && (loaded.Success? ==>
                  var ctx := PrepareRecipeContext(loaded.value, escaped, env.evalExpr, env.pageTemplates);
                  && (ctx.Failure? ==> r == Failure(ctx.error))
                  && (ctx.Success? ==> r == Success(env.expandRecipe(ctx.value)) && ctx.value.data == escaped))
  {
    var recipe :- LoadRecipe(env.recipeFile(info.recipePath), env.recipeValid);
    var context :- PrepareRecipeContext(recipe, escaped, env.evalExpr, env.pageTemplates);
    Success(env.expandRecipe(context))
  }

  /** The compiler source `render` produces, before compilation. */
  function RenderSource(registry: map<string, TemplateInfo>, templateName: string, data: map<string, Json>,
                        engine: string, env: Environment): (r: Result<string, Error>)
    ensures templateName !in registry ==> r == Failure(UnknownTemplate(templateName, SortedNames(registry.Keys)))
    ensures templateName in registry && !env.validates(JObject(data), registry[templateName].schema) ==>
              r == Failure(SchemaViolation)
    ensures r.Success? ==> templateName in registry && SelectEngine(registry[templateName], engine).Success?
    ensures templateName in registry && env.validates(JObject(data), registry[templateName].schema) ==>
              var selected := SelectEngine(registry[templateName], engine);
              && (selected.Failure? ==> r == Failure(selected.error))
              && (selected == Success(false) ==>
                    r == Success(env.expandLegacy(templateName, EscapeData(JObject(data)))))
              && (selected == Success(true) ==>
                    r == RenderRecipe(registry[templateName], EscapeData(JObject(data)).fields, env))
  {
    if templateName !in registry then Failure(UnknownTemplate(templateName, SortedNames(registry.Keys)))
    else
      var info := registry[templateName];
      if !env.validates(JObject(data), info.schema) then Failure(SchemaViolation)
      else
        var escaped := EscapeData(JObject(data));
        var useRecipe :- SelectEngine(info, engine);
        if useRecipe then RenderRecipe(info, escaped.fields, env)
        else Success(env.expandLegacy(templateName, escaped))
  }

  /** On a payload without NUL characters the corrected escape is
      `escape_data` as written, so the source rendered here is the one `render`
      produces on either path. */
  lemma RenderSourceAsWritten(registry: map<string, TemplateInfo>, templateName: string, data: map<string, Json>,
                              engine: string, env: Environment)
    requires NulFree(JObject(data))
    ensures templateName in registry && env.validates(JObject(data), registry[templateName].schema) ==>
              var selected := SelectEngine(registry[templateName], engine);
              && (selected == Success(false) ==>
                    RenderSource(registry, templateName, data, engine, env)
                    == Success(env.expandLegacy(templateName, TexEscapeData(JObject(data)))))
              && (selected == Success(true) ==>
                    RenderSource(registry, templateName, data, engine, env)
                    == RenderRecipe(registry[templateName], TexEscapeData(JObject(data)).fields, env))
  {
    EscapeDataAgreesOnNulFree(JObject(data));
  }

  /** The recipe path hands the meta-template the context prepared over the
      escaped payload, and that payload reads back to the caller's data. */
  lemma RecipePathContext(registry: map<string, TemplateInfo>, templateName: string, data: map<string, Json>,
                          engine: string, env: Environment)
    requires templateName in registry && env.validates(JObject(data), registry[templateName].schema)
    requires SelectEngine(registry[templateName], engine) == Success(true)
    requires RenderSource(registry, templateName, data, engine, env).Success?
    ensures var loaded := LoadRecipe(env.recipeFile(registry[templateName].recipePath), env.recipeValid);
            && loaded.Success?
            && var ctx := PrepareRecipeContext(loaded.value, EscapeData(JObject(data)).fields, env.evalExpr, env.pageTemplates);
            && ctx.Success?
            && RenderSource(registry, templateName, data, engine, env).value == env.expandRecipe(ctx.value)
            && LeavesEscaped(JObject(data), JObject(ctx.value.data))
            && UnescapeData(JObject(ctx.value.data)) == JObject(data)
  {
    var escaped := EscapeData(JObject(data));
    EscapeDataRoundTrip(JObject(data));
    assert escaped == JObject(escaped.fields);
  }

  /** Compilation of a rendered source, with the runs specialised to it. */
  function CompileSource(tex: string, env: Environment): (r: CompileOutcome)
    ensures r == Compile((k: nat) => env.runPass(tex, k), env.artifact(tex))
    ensures r.result.Success? <==> (forall k | 0 <= k < MaxPasses :: Clean(env.runPass(tex, k))) && env.artifact(tex).Some?
    ensures r.result.Success? ==> env.artifact(tex) == Some(r.result.value)
    ensures forall k | 0 <= k < MaxPasses && !Clean(env.runPass(tex, k)) && (forall j | 0 <= j < k :: Clean(env.runPass(tex, j))) ::
              r.result == Failure(PassFailure(env.runPass(tex, k)))
    ensures (forall k | 0 <= k < MaxPasses :: Clean(env.runPass(tex, k))) && env.artifact(tex).None? ==>
              r.result == Failure(NoArtifactProduced)
  {
    var run := (k: nat) => env.runPass(tex, k);
    assert forall k: nat :: run(k) == env.runPass(tex, k);
    Compile(run, env.artifact(tex))
  }

  /** `render(template_name, data, engine=engine)`: the PDF bytes, or the first error. */
  function Render(registry: map<string, TemplateInfo>, templateName: string, data: map<string, Json>,
                  engine: string, env: Environment): (r: Result<Bytes, Error>)
    ensures RenderSource(registry, templateName, data, engine, env).Failure? ==>
              r == Failure(RenderSource(registry, templateName, data, engine, env).error)
    ensures RenderSource(registry, templateName, data, engine, env).Success? ==>
              var tex := RenderSource(registry, templateName, data, engine, env).value;
              && r == CompileSource(tex, env).result
              && (r.Success? <==> (forall k | 0 <= k < MaxPasses :: Clean(env.runPass(tex, k))) && env.artifact(tex).Some?)
              && (r.Success? ==> env.artifact(tex) == Some(r.value))
  {
    match RenderSource(registry, templateName, data, engine, env)
    case Failure(e) => Failure(e)
    case Success(tex) => CompileSource(tex, env).result
  }

  /** An unknown template fails with "Unknown template" and the sorted names,
      whatever the payload, the engine or anything the later stages would do. */
  lemma UnknownTemplateFailsFirst(registry: map<string, TemplateInfo>, templateName: string,
                                  data: map<string, Json>, data': map<string, Json>,
                                  engine: string, engine': string, env: Environment, env': Environment)
    requires templateName !in registry
    ensures Render(registry, templateName, data, engine, env) == Render(registry, templateName, data', engine', env')
    ensures var r := Render(registry, templateName, data, engine, env);
            && r.Failure? && r.error.Kind() == ValueError
            && "Unknown template" <= r.error.Message()
            && Sorted(r.error.available) && Distinct(r.error.available)
            && forall n :: n in r.error.available <==> n in registry
  {
    var failure := Failure(UnknownTemplate(templateName, SortedNames(registry.Keys)));
    assert RenderSource(registry, templateName, data, engine, env) == failure;
    assert RenderSource(registry, templateName, data', engine', env') == failure;
    LookupMessages(templateName, SortedNames(registry.Keys));
  }
}
