/** The generic, already-parsed JSON/YAML value that payloads, overrides and
    catalog defaults are made of. Python's floats are not modelled: numbers are
    opaque integers that are only ever passed through. */
module JsonData {
  import opened Text

  datatype Json =
    | JStr(s: string)
    | JNum(n: int)
    | JBool(b: bool)
    | JNull
    | JList(items: seq<Json>)
    | JObject(fields: map<string, Json>)

  /** Python truthiness, `bool(v)`. */
  predicate Truthy(j: Json) {
    match j
    case JStr(s) => |s| > 0
    case JNum(n) => n != 0
    case JBool(b) => b
    case JNull => false
    case JList(xs) => |xs| > 0
    case JObject(m) => |m| > 0
  }

  /** `d.get(key, default)`. */
  function Get(d: map<string, Json>, key: string, default: Json): Json {
    if key in d then d[key] else default
  }

  /** `str(v)`, which is also what an f-string inserts. */
  function PyStr(j: Json): string
    decreases j, 0
  {
    match j
    case JStr(s) => s
    case JNum(n) => IntToDecimal(n)
    case JBool(b) => if b then "True" else "False"
    case JNull => "None"
    case JList(xs) => "[" + Join(seq(|xs|, i requires 0 <= i < |xs| => PyRepr(xs[i])), ", ") + "]"
    case JObject(m) =>
      var keys := SortedNames(m.Keys);
      "{" + Join(seq(|keys|, i requires 0 <= i < |keys| => StrRepr(keys[i]) + ": " + PyRepr(m[keys[i]])), ", ") + "}"
  }

  /** `repr(v)` for values nested inside a list or mapping. */
  function PyRepr(j: Json): string
    decreases j, 1
  {
    if j.JStr? then StrRepr(j.s) else PyStr(j)
  }
}
