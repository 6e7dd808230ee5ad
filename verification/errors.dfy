/** The exceptions the pipeline raises, with the Python exception class and the
    message text each `raise` builds. */
module Errors {
  import opened Text

  /** The Python exception class that carries the error. */
  datatype ErrorKind =
    | ValueError
    | RuntimeError
    | KeyError
    | TypeError
    | AttributeError
    | TimeoutExpired
    | ValidationError

  datatype Error =
    | UnknownComponent(name: string, available: seq<string>)
    | UnknownPageTemplate(name: string, available: seq<string>)
    /** `spec["name"]` on a mapping without that key. */
    | PageTemplateSpecWithoutName
    /** `spec["name"]` on a value that is neither a string nor a mapping. */
    | PageTemplateSpecNotMapping
    /** A list or mapping used as a page template name (unhashable). */
    | PageTemplateNameUnhashable
    | MissingBody
    /** `for block in body` on a number, boolean or null. */
    | BodyNotIterable
    /** `block.get(...)` on a block that is not a mapping. */
    | BlockNotMapping
    | UnknownTemplate(name: string, available: seq<string>)
    | NoRenderSource(template: string)
    | NoLegacySource(template: string)
    | NoRecipeSource(template: string)
    | InvalidEngine(engine: string)
    /** `jsonschema.validate` rejected the payload. */
    | SchemaViolation
    | CompilationFailed(exitCode: int, tail: string)
    | CompilationTimedOut
    | NoArtifactProduced
  {
    function Kind(): ErrorKind {
      match this
      case UnknownComponent(_, _) => ValueError
      case UnknownPageTemplate(_, _) => ValueError
      case PageTemplateSpecWithoutName => KeyError
      case PageTemplateSpecNotMapping => TypeError
      case PageTemplateNameUnhashable => TypeError
      case MissingBody => ValueError
      case BodyNotIterable => TypeError
      case BlockNotMapping => AttributeError
      case UnknownTemplate(_, _) => ValueError
      case NoRenderSource(_) => ValueError
      case NoLegacySource(_) => ValueError
      case NoRecipeSource(_) => ValueError
      case InvalidEngine(_) => ValueError
      case SchemaViolation => ValidationError
      case CompilationFailed(_, _) => RuntimeError
      case CompilationTimedOut => TimeoutExpired
      case NoArtifactProduced => RuntimeError
    }

    /** The message of the raised exception (for Python's own exceptions, a
        short description in their place). */
    function Message(): string {
      match this
      case UnknownComponent(n, avail) =>
        "Unknown component '" + n + "'. Available: " + Join(avail, ", ")
      case UnknownPageTemplate(n, avail) =>
        "Unknown page template '" + n + "'. Available: " + Join(avail, ", ")
      case PageTemplateSpecWithoutName => "'name'"
      case PageTemplateSpecNotMapping => "page template spec is not subscriptable"
      case PageTemplateNameUnhashable => "unhashable page template name"
      case MissingBody => "Block engine data must include a 'body' array"
      case BodyNotIterable => "body is not iterable"
      case BlockNotMapping => "block has no attribute 'get'"
      case UnknownTemplate(n, avail) =>
        "Unknown template '" + n + "'. Available: " + Join(avail, ", ")
      case NoRenderSource(t) => "Template '" + t + "' has neither .tex.jinja nor recipe.yaml"
      case NoLegacySource(t) =>
        "Template '" + t + "' has no .tex.jinja file (required for engine='legacy')"
      case NoRecipeSource(t) =>
        "Template '" + t + "' has no recipe.yaml file (required for engine='recipe')"
      case InvalidEngine(e) =>
        "Invalid engine '" + e + "'. Must be 'auto', 'legacy', or 'recipe'."
      case SchemaViolation => "data does not conform to the template schema"
      case CompilationFailed(code, tail) =>
        "xelatex failed (exit " + IntToDecimal(code) + "):\n" + tail
      case CompilationTimedOut => "xelatex timed out after 30 seconds"
      case NoArtifactProduced => "xelatex did not produce a PDF"
    }
  }

  /** Lookup failures name what was looked up in a message with a fixed opening. */
  lemma LookupMessages(n: string, avail: seq<string>)
    ensures "Unknown component" <= UnknownComponent(n, avail).Message()
    ensures "Unknown page template" <= UnknownPageTemplate(n, avail).Message()
    ensures "Unknown template" <= UnknownTemplate(n, avail).Message()
  {
    var rest := n + "'. Available: " + Join(avail, ", ");
    OpensWith("Unknown component", "Unknown component '", rest);
    assert UnknownComponent(n, avail).Message() == "Unknown component '" + rest;
    OpensWith("Unknown page template", "Unknown page template '", rest);
    assert UnknownPageTemplate(n, avail).Message() == "Unknown page template '" + rest;
    OpensWith("Unknown template", "Unknown template '", rest);
    assert UnknownTemplate(n, avail).Message() == "Unknown template '" + rest;
  }

  lemma OpensWith(opening: string, literal: string, rest: string)
    requires opening <= literal
    ensures opening <= literal + rest
  {
    PrefixOfConcat(literal, rest);
    PrefixTransitive(opening, literal, literal + rest);
  }
}
