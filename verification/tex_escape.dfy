/** Escaping of user strings for LaTeX (klartex/tex_escape.py).

    `TexEscape` is the code as written: the backslash is first swapped for a
    NUL-delimited placeholder, every other table entry is applied with
    `str.replace`, and the placeholder is finally turned into
    `\textbackslash{}`. `EscapeText` is the per-character reading of the same
    table; the two agree on every string without a NUL character, and
    `EscapeData` (the recursive escape of payloads) is built on `EscapeText`. */
module TexEscape {
  import opened Wrappers
  import opened Text
  import opened JsonData

  /** `_REPLACEMENTS`, in the dictionary's insertion order. */
  const Replacements: seq<(char, string)> := [
    ('\\', @"\textbackslash{}"),
    ('{', @"\{"),
    ('}', @"\}"),
    ('$', @"\$"),
    ('#', @"\#"),
    ('%', @"\%"),
    ('&', @"\&"),
    ('_', @"\_"),
    ('~', @"\textasciitilde{}"),
    ('^', @"\textasciicircum{}")
  ]

  /** The characters LaTeX treats specially: the keys of `Replacements`. */
  const Specials: set<char> := set i | 0 <= i < |Replacements| :: Replacements[i].0

  /** The marker that stands in for a backslash while the other entries are applied. */
  const Placeholder: string := ['\0'] + "BACKSLASH" + ['\0']

  const BackslashEscape: string := @"\textbackslash{}"

  // ---------------------------------------------------------------------------
  // The code as written
  // ---------------------------------------------------------------------------

  /** Python's `s.replace(pat, rep)`: leftmost, non-overlapping occurrences. */
  function Replace(s: string, pat: string, rep: string): string
    requires |pat| > 0
    decreases |s|
  {
    if |s| == 0 then ""
    else if pat <= s then rep + Replace(s[|pat|..], pat, rep)
    else [s[0]] + Replace(s[1..], pat, rep)
  }

  /** The loop over the table that skips the backslash entry. */
  function ReplaceEach(s: string, table: seq<(char, string)>): string
    decreases |table|
  {
    if |table| == 0 then s
    else
      var (c, e) := table[0];
      ReplaceEach(if c == '\\' then s else Replace(s, [c], e), table[1..])
  }

  /** `tex_escape(value)` exactly as the source computes it. */
  function TexEscape(s: string): string {
    var protected := Replace(s, "\\", Placeholder);
    var escaped := ReplaceEach(protected, Replacements);
    Replace(escaped, Placeholder, BackslashEscape)
  }

  // ---------------------------------------------------------------------------
  // The table read one character at a time
  // ---------------------------------------------------------------------------

  /** The first table entry for `c`. */
  function Lookup(table: seq<(char, string)>, c: char): (r: Option<string>)
    ensures r.Some? ==> exists j | 0 <= j < |table| :: table[j] == (c, r.value)
    ensures r.None? ==> forall j | 0 <= j < |table| :: table[j].0 != c
    decreases |table|
  {
    if |table| == 0 then None
    else if table[0].0 == c then Some(table[0].1)
    else Lookup(table[1..], c)
  }

  /** The escape of one character: its table entry, or itself. */
  function EscapeChar(c: char): (r: string)
    ensures c !in Specials ==> r == [c]
    ensures c in Specials ==> |r| >= 2 && r[0] == '\\' && (c, r) in Replacements
  {
    match Lookup(Replacements, c)
    case Some(e) =>
      assert c in Specials && |e| >= 2 && e[0] == '\\' && (c, e) in Replacements by {
        var j :| 0 <= j < |Replacements| && Replacements[j] == (c, e);
        EntriesLong(j);
      }
      e
    case None =>
      assert c !in Specials;
      [c]
  }

  /** Every table entry is a backslash followed by at least one character. */
  lemma EntriesLong(j: nat)
    requires j < |Replacements|
    ensures |Replacements[j].1| >= 2 && Replacements[j].1[0] == '\\'
  {
  }

  /** Per-character escaping: the concatenation of the escapes of the characters. */
  function EscapeText(s: string): (r: string)
    ensures |r| >= |s|
    ensures (forall i | 0 <= i < |s| :: s[i] !in Specials) ==> r == s
    decreases |s|
  {
    if |s| == 0 then ""
    else
      var r := EscapeChar(s[0]) + EscapeText(s[1..]);
      assert (forall i | 0 <= i < |s| :: s[i] !in Specials) ==> r == s by {
        if forall i | 0 <= i < |s| :: s[i] !in Specials {
          assert forall i | 0 <= i < |s[1..]| :: s[1..][i] == s[i + 1];
          assert s == [s[0]] + s[1..];
        }
      }
      r
  }

  // ---------------------------------------------------------------------------
  // Facts about the concrete table
  // ---------------------------------------------------------------------------

  /** A key applied later never occurs in an escape inserted earlier. */
  ghost predicate LaterKeysAbsent(table: seq<(char, string)>) {
    forall i, j | 0 <= i < j < |table| && table[i].0 != '\\' :: table[j].0 !in table[i].1
  }

  /** No escape is a prefix of another one. */
  ghost predicate PrefixFree(table: seq<(char, string)>) {
    forall i, j | 0 <= i < |table| && 0 <= j < |table| && i != j :: !(table[i].1 <= table[j].1)
  }

  /** Every escape is a non-empty string that starts with a backslash. */
  ghost predicate BackslashLed(table: seq<(char, string)>) {
    forall i | 0 <= i < |table| :: |table[i].1| > 0 && table[i].1[0] == '\\'
  }

  lemma TableOrdered()
    ensures LaterKeysAbsent(Replacements)
  {
  }

  lemma TableShape()
    ensures BackslashLed(Replacements)
    ensures forall i | 0 <= i < |Replacements| :: '\0' !in Replacements[i].1
  {
  }

  /** The placeholder holds no special character (nor a backslash). */
  lemma PlaceholderPlain()
    ensures forall i | 0 <= i < |Placeholder| :: Placeholder[i] !in Specials
    ensures forall i | 0 <= i < |Replacements| :: Replacements[i].0 !in Placeholder
  {
  }

  /** Every special character has a table entry, and NUL is not special. */
  lemma SpecialsHaveEntries()
    ensures forall c | c in Specials :: Lookup(Replacements, c).Some?
    ensures '\0' !in Specials
  {
    forall c | c in Specials ensures Lookup(Replacements, c).Some? {
      var i :| 0 <= i < |Replacements| && Replacements[i].0 == c;
    }
    assert forall i | 0 <= i < |Replacements| :: Replacements[i].0 != '\0';
  }

  lemma TablePrefixFree()
    ensures PrefixFree(Replacements)
  {
    forall i, j | 0 <= i < |Replacements| && 0 <= j < |Replacements| && i != j
      ensures !(Replacements[i].1 <= Replacements[j].1)
    {
      var a, b := Replacements[i].1, Replacements[j].1;
      assert a[1] != b[1] || (|a| > 10 && |b| > 10 && (a[5] != b[5] || a[10] != b[10]));
    }
  }

  // ---------------------------------------------------------------------------
  // Lemmas about Replace and ReplaceEach
  // ---------------------------------------------------------------------------

  /** One step of replacing a single character. */
  lemma ReplaceCharStep(s: string, c: char, e: string)
    requires |s| > 0
    ensures Replace(s, [c], e) == (if s[0] == c then e else [s[0]]) + Replace(s[1..], [c], e)
  {
    if s[0] == c {
      assert s[..1] == [c];
    } else {
      NotPrefixAt([c], s, 0);
    }
  }

  /** Replacing a single character distributes over concatenation. */
  lemma {:induction false} ReplaceCharConcat(a: string, b: string, c: char, e: string)
    ensures Replace(a + b, [c], e) == Replace(a, [c], e) + Replace(b, [c], e)
    decreases |a|
  {
    if |a| == 0 {
      assert a + b == b;
    } else {
      var s := a + b;
      assert s[0] == a[0];
      assert s[1..] == a[1..] + b;
      ReplaceCharStep(s, c, e);
      ReplaceCharStep(a, c, e);
      ReplaceCharConcat(a[1..], b, c, e);
    }
  }

  lemma {:induction false} ReplaceCharAbsent(s: string, c: char, e: string)
    requires c !in s
    ensures Replace(s, [c], e) == s
    decreases |s|
  {
    if |s| > 0 {
      ReplaceCharStep(s, c, e);
      ReplaceCharAbsent(s[1..], c, e);
      assert s == [s[0]] + s[1..];
    }
  }

  /** A prefix free of the pattern's first character is copied unchanged. */
  lemma {:induction false} ReplaceSkipsFree(a: string, b: string, pat: string, rep: string)
    requires |pat| > 0 && pat[0] !in a
    ensures Replace(a + b, pat, rep) == a + Replace(b, pat, rep)
    decreases |a|
  {
    if |a| == 0 {
      assert a + b == b;
    } else {
      var s := a + b;
      assert s[0] == a[0];
      NotPrefixAt(pat, s, 0);
      assert s[1..] == a[1..] + b;
      assert Replace(s, pat, rep) == [a[0]] + Replace(a[1..] + b, pat, rep);
      ReplaceSkipsFree(a[1..], b, pat, rep);
      assert a == [a[0]] + a[1..];
    }
  }

  lemma ReplaceAtPattern(b: string, pat: string, rep: string)
    requires |pat| > 0
    ensures Replace(pat + b, pat, rep) == rep + Replace(b, pat, rep)
  {
    assert (pat + b)[|pat|..] == b;
  }

  lemma {:induction false} ReplaceEachConcat(a: string, b: string, table: seq<(char, string)>)
    ensures ReplaceEach(a + b, table) == ReplaceEach(a, table) + ReplaceEach(b, table)
    decreases |table|
  {
    if |table| > 0 {
      var (c, e) := table[0];
      if c == '\\' {
        ReplaceEachConcat(a, b, table[1..]);
      } else {
        ReplaceCharConcat(a, b, c, e);
        ReplaceEachConcat(Replace(a, [c], e), Replace(b, [c], e), table[1..]);
      }
    }
  }

  lemma {:induction false} ReplaceEachAbsent(s: string, table: seq<(char, string)>)
    requires forall i | 0 <= i < |table| :: table[i].0 == '\\' || table[i].0 !in s
    ensures ReplaceEach(s, table) == s
    decreases |table|
  {
    if |table| > 0 {
      var (c, e) := table[0];
      if c != '\\' {
        ReplaceCharAbsent(s, c, e);
      }
      ReplaceEachAbsent(s, table[1..]);
    }
  }

  /** Applying the whole loop to one character yields that character's first table entry. */
  lemma {:induction false} ReplaceEachSingle(x: char, table: seq<(char, string)>)
    requires x != '\\'
    requires LaterKeysAbsent(table)
    ensures ReplaceEach([x], table) == Lookup(table, x).GetOr([x])
    decreases |table|
  {
    if |table| > 0 {
      var (c, e) := table[0];
      assert LaterKeysAbsent(table[1..]);
      if c == '\\' {
        ReplaceEachSingle(x, table[1..]);
      } else if c == x {
        assert [x][1..] == [];
        assert Replace([x], [c], e) == e + Replace([], [c], e) == e;
        forall i | 0 <= i < |table[1..]| ensures table[1..][i].0 !in e {
          assert table[1..][i] == table[i + 1];
        }
        ReplaceEachAbsent(e, table[1..]);
      } else {
        ReplaceCharAbsent([x], c, e);
        ReplaceEachSingle(x, table[1..]);
      }
    }
  }

  // ---------------------------------------------------------------------------
  // The code as written agrees with the table on NUL-free text
  // ---------------------------------------------------------------------------

  /** The first stage on one character: a backslash becomes the placeholder. */
  lemma ProtectChar(x: char)
    ensures Replace([x], "\\", Placeholder) == if x == '\\' then Placeholder else [x]
  {
    assert [x][1..] == [];
    if x == '\\' {
      assert "\\" <= [x];
      assert Replace([x], "\\", Placeholder) == Placeholder + Replace([], "\\", Placeholder);
    } else {
      assert "\\"[0] != [x][0];
      assert Replace([x], "\\", Placeholder) == [x] + Replace([], "\\", Placeholder);
    }
  }

  /** The table loop leaves the placeholder alone. */
  lemma ReplaceEachPlaceholder()
    ensures ReplaceEach(Placeholder, Replacements) == Placeholder
  {
    PlaceholderPlain();
    ReplaceEachAbsent(Placeholder, Replacements);
  }

  /** The table loop on one protected character yields its escape (or the placeholder). */
  lemma ReplaceEachProtectedChar(x: char)
    ensures ReplaceEach(Replace([x], "\\", Placeholder), Replacements)
         == if x == '\\' then Placeholder else EscapeChar(x)
  {
    ProtectChar(x);
    if x == '\\' {
      ReplaceEachPlaceholder();
    } else {
      TableOrdered();
      ReplaceEachSingle(x, Replacements);
    }
  }

  /** The last stage turns the piece of one character into its escape. */
  lemma RestoreBackslash(x: char, mid: string)
    requires x != '\0'
    ensures Replace((if x == '\\' then Placeholder else EscapeChar(x)) + mid, Placeholder, BackslashEscape)
         == EscapeChar(x) + Replace(mid, Placeholder, BackslashEscape)
  {
    if x == '\\' {
      ReplaceAtPattern(mid, Placeholder, BackslashEscape);
      assert EscapeChar(x) == BackslashEscape;
    } else {
      TableShape();
      SpecialsHaveEntries();
      assert '\0' !in EscapeChar(x);
      ReplaceSkipsFree(EscapeChar(x), mid, Placeholder, BackslashEscape);
    }
  }

  /** Without NUL characters, `tex_escape` is the per-character escape: no
      brace or backslash it inserts is escaped again. */
  lemma {:induction false} TexEscapeAgreesOnNulFree(s: string)
    requires '\0' !in s
    ensures TexEscape(s) == EscapeText(s)
    decreases |s|
  {
    if |s| == 0 {
      ReplaceEachAbsent("", Replacements);
    } else {
      var x, rest := s[0], s[1..];
      assert s == [x] + rest;
      var head := Replace([x], "\\", Placeholder);
      var tail := Replace(rest, "\\", Placeholder);
      ReplaceCharConcat([x], rest, '\\', Placeholder);
      ReplaceEachConcat(head, tail, Replacements);
      ReplaceEachProtectedChar(x);
      var mid := ReplaceEach(tail, Replacements);
      TexEscapeAgreesOnNulFree(rest);
      RestoreBackslash(x, mid);
    }
  }

  /** The code as written is not per-character: a string holding the
      placeholder text comes out exactly as a lone backslash does, although
      it contains no special character at all. */
  lemma PlaceholderCollision()
    ensures forall i | 0 <= i < |Placeholder| :: Placeholder[i] !in Specials
    ensures TexEscape(Placeholder) == TexEscape("\\") == BackslashEscape
    ensures TexEscape(Placeholder) != Placeholder
  {
    PlaceholderPlain();
    ReplaceCharAbsent(Placeholder, '\\', Placeholder);
    assert Replace(Placeholder, "\\", Placeholder) == Placeholder;
    ReplaceEachPlaceholder();
    ReplaceAtPattern("", Placeholder, BackslashEscape);
    assert Placeholder + "" == Placeholder;
    TexEscapeAgreesOnNulFree("\\");
    assert EscapeText("\\") == EscapeChar('\\') + EscapeText("");
  }

  // ---------------------------------------------------------------------------
  // Per-character escaping: table entries, concatenation, and reading back
  // ---------------------------------------------------------------------------

  ghost predicate DistinctKeys(table: seq<(char, string)>) {
    forall i, j | 0 <= i < j < |table| :: table[i].0 != table[j].0
  }

  lemma TableDistinctKeys()
    ensures DistinctKeys(Replacements)
  {
  }

  lemma {:induction false} LookupEntry(table: seq<(char, string)>, i: nat)
    requires DistinctKeys(table) && i < |table|
    ensures Lookup(table, table[i].0) == Some(table[i].1)
    decreases i
  {
    if i > 0 {
      assert table[1..][i - 1] == table[i];
      LookupEntry(table[1..], i - 1);
    }
  }

  /** Each special character is replaced by its own fixed table entry, e.g.
      `$` by `\$` and `~` by `\textasciitilde{}`. */
  lemma EscapeTextUsesTable(i: nat)
    requires i < |Replacements|
    ensures EscapeText([Replacements[i].0]) == Replacements[i].1
  {
    TableDistinctKeys();
    LookupEntry(Replacements, i);
    assert [Replacements[i].0][1..] == "";
  }

  /** Escaping distributes over concatenation. */
  lemma {:induction false} EscapeTextConcat(a: string, b: string)
    ensures EscapeText(a + b) == EscapeText(a) + EscapeText(b)
    decreases |a|
  {
    if |a| == 0 {
      assert a + b == b;
    } else {
      assert (a + b)[0] == a[0];
      assert (a + b)[1..] == a[1..] + b;
      EscapeTextConcat(a[1..], b);
    }
  }

  /** The first table entry whose escape begins `r`. */
  function MatchEscape(r: string, table: seq<(char, string)>): (m: Option<(char, string)>)
    ensures m.Some? ==> |m.value.1| > 0 && m.value.1 <= r
    decreases |table|
  {
    if |table| == 0 then None
    else if |table[0].1| > 0 && table[0].1 <= r then Some(table[0])
    else MatchEscape(r, table[1..])
  }

  /** Reads escaped text back into the original text. `None` means the text
      holds a special character that is not part of an escape sequence. */
  function Unescape(r: string): Option<string>
    decreases |r|
  {
    if |r| == 0 then Some("")
    else
      match MatchEscape(r, Replacements)
      case Some((c, e)) =>
        var rest :- Unescape(r[|e|..]);
        Some([c] + rest)
      case None =>
        if r[0] in Specials then None
        else
          var rest :- Unescape(r[1..]);
          Some([r[0]] + rest)
  }

  lemma {:induction false} MatchEscapeFindsEntry(table: seq<(char, string)>, c: char, w: string)
    requires PrefixFree(table) && BackslashLed(table)
    requires Lookup(table, c).Some?
    ensures MatchEscape(Lookup(table, c).value + w, table) == Some((c, Lookup(table, c).value))
    decreases |table|
  {
    var e := Lookup(table, c).value;
    var t0 := table[0].1;
    if table[0].0 != c {
      var j :| 0 <= j < |table[1..]| && table[1..][j] == (c, e);
      assert table[j + 1].1 == e;
      assert !(t0 <= e) && !(e <= t0);
      assert !(t0 <= e + w);
      assert PrefixFree(table[1..]) by {
        forall i, k | 0 <= i < |table[1..]| && 0 <= k < |table[1..]| && i != k
          ensures !(table[1..][i].1 <= table[1..][k].1)
        {
          assert table[1..][i] == table[i + 1] && table[1..][k] == table[k + 1];
        }
      }
      MatchEscapeFindsEntry(table[1..], c, w);
    }
  }

  lemma {:induction false} MatchEscapePlain(r: string, table: seq<(char, string)>)
    requires BackslashLed(table) && |r| > 0 && r[0] != '\\'
    ensures MatchEscape(r, table) == None
    decreases |table|
  {
    if |table| > 0 {
      MatchEscapePlain(r, table[1..]);
    }
  }

  /** Reading back an escape sequence yields its special character. */
  lemma UnescapeEscapedChar(c: char, w: string)
    requires c in Specials
    ensures Unescape(EscapeChar(c) + w) == if Unescape(w).Some? then Some([c] + Unescape(w).value) else None
  {
    SpecialsHaveEntries();
    TableShape();
    TablePrefixFree();
    var e := EscapeChar(c);
    assert e == Lookup(Replacements, c).value;
    MatchEscapeFindsEntry(Replacements, c, w);
    assert (e + w)[|e|..] == w;
  }

  /** Reading back an ordinary character yields that character. */
  lemma UnescapePlainChar(x: char, w: string)
    requires x !in Specials
    ensures Unescape([x] + w) == if Unescape(w).Some? then Some([x] + Unescape(w).value) else None
  {
    TableShape();
    assert Replacements[0].0 == '\\';
    MatchEscapePlain([x] + w, Replacements);
    assert ([x] + w)[1..] == w;
  }

  /** Reading back the escape of any character yields that character. */
  lemma UnescapeChar(x: char, w: string)
    ensures Unescape(EscapeChar(x) + w) == if Unescape(w).Some? then Some([x] + Unescape(w).value) else None
  {
    if x in Specials {
      UnescapeEscapedChar(x, w);
    } else {
      UnescapePlainChar(x, w);
    }
  }

  /** Escaped text reads back to the text it came from: the escape loses
      nothing and leaves no raw special character behind. */
  lemma {:induction false} UnescapeEscapeText(s: string)
    ensures Unescape(EscapeText(s)) == Some(s)
    decreases |s|
  {
    if |s| > 0 {
      var x, rest := s[0], s[1..];
      var w := EscapeText(rest);
      assert EscapeText(s) == EscapeChar(x) + w;
      UnescapeEscapeText(rest);
      UnescapeChar(x, w);
      assert s == [x] + rest;
    }
  }

  /** Different texts never escape to the same output. */
  lemma EscapeTextInjective(a: string, b: string)
    requires EscapeText(a) == EscapeText(b)
    ensures a == b
  {
    UnescapeEscapeText(a);
    UnescapeEscapeText(b);
  }

  // ---------------------------------------------------------------------------
  // escape_data
  // ---------------------------------------------------------------------------

  /** `b` is `a` with every string leaf `s` replaced by `EscapeText(s)`: the
      same mapping keys (not escaped), the same list lengths, and the same
      numbers, booleans and nulls. */
  predicate LeavesEscaped(a: Json, b: Json) {
    match a
    case JStr(s) => b == JStr(EscapeText(s))
    case JList(xs) =>
      b.JList? && |b.items| == |xs| && forall i | 0 <= i < |xs| :: LeavesEscaped(xs[i], b.items[i])
    case JObject(m) =>
      b.JObject? && b.fields.Keys == m.Keys && forall k | k in m :: LeavesEscaped(m[k], b.fields[k])
    case _ => b == a
  }

  /** No string leaf of the payload holds a NUL character. */
  predicate NulFree(j: Json) {
    match j
    case JStr(s) => '\0' !in s
    case JList(xs) => forall i | 0 <= i < |xs| :: NulFree(xs[i])
    case JObject(m) => forall k | k in m :: NulFree(m[k])
    case _ => true
  }

  /** `escape_data` with the per-character escape: every string leaf escaped,
      mapping keys untouched. */
  function EscapeData(j: Json): (r: Json)
    ensures LeavesEscaped(j, r)
    ensures j.JStr? ==> Unescape(r.s) == Some(j.s)
  {
    match j
    case JStr(s) =>
      UnescapeEscapeText(s);
      JStr(EscapeText(s))
    case JList(xs) => JList(seq(|xs|, i requires 0 <= i < |xs| => EscapeData(xs[i])))
    case JObject(m) => JObject(map k | k in m :: EscapeData(m[k]))
    case _ => j
  }

  /** `escape_data` as written, with `tex_escape` on every string leaf; it
      keeps the payload's shape. */
  function TexEscapeData(j: Json): (r: Json)
    ensures j.JStr? ==> r == JStr(TexEscape(j.s))
    ensures j.JList? ==> r.JList? && |r.items| == |j.items|
    ensures j.JObject? ==> r.JObject? && r.fields.Keys == j.fields.Keys
    ensures j.JNum? || j.JBool? || j.JNull? ==> r == j
  {
    match j
    case JStr(s) => JStr(TexEscape(s))
    case JList(xs) => JList(seq(|xs|, i requires 0 <= i < |xs| => TexEscapeData(xs[i])))
    case JObject(m) => JObject(map k | k in m :: TexEscapeData(m[k]))
    case _ => j
  }

  /** On a payload without NUL characters, `escape_data` as written is the
      per-character escape at every depth. */
  lemma {:induction false} EscapeDataAgreesOnNulFree(j: Json)
    requires NulFree(j)
    ensures TexEscapeData(j) == EscapeData(j)
  {
    match j
    case JStr(s) =>
      TexEscapeAgreesOnNulFree(s);
    case JList(xs) =>
      forall i | 0 <= i < |xs| ensures TexEscapeData(xs[i]) == EscapeData(xs[i]) {
        EscapeDataAgreesOnNulFree(xs[i]);
      }
      assert TexEscapeData(j).items == EscapeData(j).items;
    case JObject(m) =>
      forall k | k in m ensures TexEscapeData(m[k]) == EscapeData(m[k]) {
        EscapeDataAgreesOnNulFree(m[k]);
      }
      assert TexEscapeData(j).fields == EscapeData(j).fields;
    case _ =>
  }

  /** `escape_data` as written on a one-field payload. */
  lemma TexEscapeDataSingleton(key: string, s: string)
    ensures TexEscapeData(JObject(map[key := JStr(s)])) == JObject(map[key := JStr(TexEscape(s))])
  {
    var r := TexEscapeData(JObject(map[key := JStr(s)]));
    assert r.fields[key] == JStr(TexEscape(s));
  }

  /** `escape_data` as written inherits the placeholder collision: a payload
      holding the placeholder text and one holding a lone backslash escape to
      the same tree, while the per-character escape keeps them apart. */
  lemma EscapeDataCollision(key: string)
    ensures TexEscapeData(JObject(map[key := JStr(Placeholder)])) == TexEscapeData(JObject(map[key := JStr("\\")]))
    ensures EscapeData(JObject(map[key := JStr(Placeholder)])) != EscapeData(JObject(map[key := JStr("\\")]))
  {
    PlaceholderCollision();
    TexEscapeDataSingleton(key, Placeholder);
    TexEscapeDataSingleton(key, "\\");
    var e := EscapeData(JObject(map[key := JStr(Placeholder)]));
    var f := EscapeData(JObject(map[key := JStr("\\")]));
    assert e.fields[key] == JStr(EscapeText(Placeholder));
    assert f.fields[key] == JStr(EscapeText("\\"));
    assert EscapeText(Placeholder) != EscapeText("\\") by {
      if EscapeText(Placeholder) == EscapeText("\\") {
        EscapeTextInjective(Placeholder, "\\");
      }
    }
  }

  /** A string leaf without NUL characters is escaped exactly as `tex_escape` escapes it. */
  lemma EscapeDataStringLeaf(s: string)
    requires '\0' !in s
    ensures EscapeData(JStr(s)) == JStr(TexEscape(s))
  {
    TexEscapeAgreesOnNulFree(s);
  }

  /** Reads every string leaf back with `Unescape`. */
  function UnescapeData(j: Json): Json {
    match j
    case JStr(s) => JStr(Unescape(s).GetOr(s))
    case JList(xs) => JList(seq(|xs|, i requires 0 <= i < |xs| => UnescapeData(xs[i])))
    case JObject(m) => JObject(map k | k in m :: UnescapeData(m[k]))
    case _ => j
  }

  /** Escaping a payload loses no information: reading its string leaves back
      restores the payload exactly. */
  lemma {:induction false} EscapeDataRoundTrip(j: Json)
    ensures UnescapeData(EscapeData(j)) == j
  {
    match j
    case JStr(s) =>
      UnescapeEscapeText(s);
    case JList(xs) =>
      var back := UnescapeData(EscapeData(j));
      forall i | 0 <= i < |xs| ensures back.items[i] == xs[i] {
        EscapeDataRoundTrip(xs[i]);
      }
    case JObject(m) =>
      var back := UnescapeData(EscapeData(j));
      forall k | k in m ensures back.fields[k] == m[k] {
        EscapeDataRoundTrip(m[k]);
      }
    case _ =>
  }
}
