/** String utilities with Python's semantics: `str.split`, `str.join`,
    `sorted` on strings, decimal rendering of integers, `repr()` of a string
    and negative slicing. */
module Text {
  import opened Wrappers

  // ---------------------------------------------------------------------------
  // str.split / str.join with a one-character separator
  // ---------------------------------------------------------------------------

  /** `s.split(sep)`: every piece between separators, empty pieces included. */
  function Split(s: string, sep: char): (parts: seq<string>)
    ensures |parts| >= 1
    ensures forall i | 0 <= i < |parts| :: sep !in parts[i]
    decreases |s|
  {
    if |s| == 0 then [""]
    else
      var rest := Split(s[1..], sep);
      if s[0] == sep then [""] + rest
      else [[s[0]] + rest[0]] + rest[1..]
  }

  /** `sep.join(parts)`. */
  function Join(parts: seq<string>, sep: string): string
    decreases |parts|
  {
    if |parts| == 0 then ""
    else if |parts| == 1 then parts[0]
    else parts[0] + sep + Join(parts[1..], sep)
  }

  /** Joining the pieces of a split restores the original string. */
  lemma {:induction false} JoinSplit(s: string, sep: char)
    ensures Join(Split(s, sep), [sep]) == s
    decreases |s|
  {
    if |s| > 0 {
      var rest := Split(s[1..], sep);
      JoinSplit(s[1..], sep);
      if s[0] == sep {
        assert Split(s, sep) == [""] + rest;
        assert s == [sep] + s[1..];
      } else {
        var parts := Split(s, sep);
        assert parts == [[s[0]] + rest[0]] + rest[1..];
        if |rest| == 1 {
          assert s == [s[0]] + rest[0];
        } else {
          assert Join(rest, [sep]) == rest[0] + [sep] + Join(rest[1..], [sep]);
          assert parts[1..] == rest[1..];
          assert s == [s[0]] + s[1..];
        }
      }
    }
  }

  /** Splitting at a separator splits both halves independently: the pieces of
      `p + sep + q` are the pieces of `p` followed by the pieces of `q`. */
  lemma {:induction false} SplitAround(p: string, q: string, sep: char)
    ensures Split(p + [sep] + q, sep) == Split(p, sep) + Split(q, sep)
    decreases |p|
  {
    if |p| == 0 {
      assert p + [sep] + q == [sep] + q;
      assert ([sep] + q)[1..] == q;
    } else {
      var s := p + [sep] + q;
      assert s[0] == p[0];
      assert s[1..] == p[1..] + [sep] + q;
      SplitAround(p[1..], q, sep);
    }
  }

  /** A string without the separator is a single piece. */
  lemma {:induction false} SplitWithoutSep(s: string, sep: char)
    requires sep !in s
    ensures Split(s, sep) == [s]
    decreases |s|
  {
    if |s| > 0 {
      SplitWithoutSep(s[1..], sep);
      assert s == [s[0]] + s[1..];
    }
  }

  /** Splitting a join of separator-free pieces gives the pieces back. */
  lemma {:induction false} SplitJoin(parts: seq<string>, sep: char)
    requires |parts| >= 1
    requires forall i | 0 <= i < |parts| :: sep !in parts[i]
    ensures Split(Join(parts, [sep]), sep) == parts
    decreases |parts|
  {
    SplitWithoutSep(parts[0], sep);
    if |parts| > 1 {
      SplitJoin(parts[1..], sep);
      SplitAround(parts[0], Join(parts[1..], [sep]), sep);
      assert parts == [parts[0]] + parts[1..];
    }
  }

  // ---------------------------------------------------------------------------
  // Prefixes
  // ---------------------------------------------------------------------------

  lemma PrefixOfConcat<T>(a: seq<T>, b: seq<T>)
    ensures a <= a + b
  {
    assert (a + b)[..|a|] == a;
  }

  lemma PrefixTransitive<T>(a: seq<T>, b: seq<T>, c: seq<T>)
    requires a <= b && b <= c
    ensures a <= c
  {
    assert c[..|a|] == b[..|a|];
  }

  /** A sequence that differs from `p` at an index inside both does not start with `p`. */
  lemma NotPrefixAt<T>(p: seq<T>, s: seq<T>, i: nat)
    requires i < |p| && i < |s| && p[i] != s[i]
    ensures !(p <= s)
  {
  }

  // ---------------------------------------------------------------------------
  // Python's ordering of strings (code point by code point)
  // ---------------------------------------------------------------------------

  /** `a <= b` on Python strings. */
  predicate LexLeq(a: string, b: string)
    decreases |a|
  {
    |a| == 0 || (|b| > 0 && (a[0] < b[0] || (a[0] == b[0] && LexLeq(a[1..], b[1..]))))
  }

  lemma {:induction false} LexLeqReflexive(a: string)
    ensures LexLeq(a, a)
    decreases |a|
  {
    if |a| > 0 {
      LexLeqReflexive(a[1..]);
    }
  }

  lemma {:induction false} LexLeqAntisymmetric(a: string, b: string)
    requires LexLeq(a, b) && LexLeq(b, a)
    ensures a == b
    decreases |a|
  {
    if |a| > 0 {
      LexLeqAntisymmetric(a[1..], b[1..]);
      assert a == [a[0]] + a[1..];
      assert b == [b[0]] + b[1..];
    }
  }

  lemma {:induction false} LexLeqTransitive(a: string, b: string, c: string)
    requires LexLeq(a, b) && LexLeq(b, c)
    ensures LexLeq(a, c)
    decreases |a|
  {
    if |a| > 0 && a[0] == b[0] && b[0] == c[0] {
      LexLeqTransitive(a[1..], b[1..], c[1..]);
    }
  }

  lemma {:induction false} LexLeqTotal(a: string, b: string)
    ensures LexLeq(a, b) || LexLeq(b, a)
    decreases |a|
  {
    if |a| > 0 && |b| > 0 && a[0] == b[0] {
      LexLeqTotal(a[1..], b[1..]);
    }
  }

  predicate IsLeast(m: string, names: set<string>) {
    m in names && forall n | n in names :: LexLeq(m, n)
  }

  /** Every finite non-empty set of strings has exactly one least element. */
  lemma {:induction false} LeastExists(names: set<string>)
    requires names != {}
    ensures exists m :: IsLeast(m, names)
    ensures forall a, b | IsLeast(a, names) && IsLeast(b, names) :: a == b
    decreases |names|
  {
    var x :| x in names;
    if names == {x} {
      LexLeqReflexive(x);
      assert IsLeast(x, names);
    } else {
      var rest := names - {x};
      LeastExists(rest);
      var m :| IsLeast(m, rest);
      LexLeqTotal(x, m);
      if LexLeq(x, m) {
        LexLeqReflexive(x);
        forall n | n in names ensures LexLeq(x, n) {
          if n != x {
            LexLeqTransitive(x, m, n);
          }
        }
        assert IsLeast(x, names);
      } else {
        forall n | n in names ensures LexLeq(m, n) {
          if n == x {
          }
        }
        assert IsLeast(m, names);
      }
    }
    forall a, b | IsLeast(a, names) && IsLeast(b, names) ensures a == b {
      LexLeqAntisymmetric(a, b);
    }
  }

  ghost predicate Sorted(xs: seq<string>) {
    forall i, j | 0 <= i < j < |xs| :: LexLeq(xs[i], xs[j])
  }

  ghost predicate Distinct<T>(xs: seq<T>) {
    forall i, j | 0 <= i < j < |xs| :: xs[i] != xs[j]
  }

  /** `sorted(names)`: the members of a set of names in ascending order. */
  function SortedNames(names: set<string>): (r: seq<string>)
    ensures |r| == |names|
    ensures forall n :: n in r <==> n in names
    ensures Sorted(r) && Distinct(r)
    decreases |names|
  {
    if names == {} then []
    else
      LeastExists(names);
      var m :| IsLeast(m, names);
      var rest := SortedNames(names - {m});
      PrependLeast(m, rest, names);
      [m] + rest
  }

  lemma PrependLeast(m: string, rest: seq<string>, names: set<string>)
    requires IsLeast(m, names)
    requires Sorted(rest) && Distinct(rest)
    requires forall n :: n in rest <==> n in names - {m}
    ensures Sorted([m] + rest) && Distinct([m] + rest)
    ensures forall n :: n in [m] + rest <==> n in names
  {
    var r := [m] + rest;
    forall i, j | 0 <= i < j < |r| ensures LexLeq(r[i], r[j]) && r[i] != r[j] {
      if i == 0 {
        assert r[j] == rest[j - 1] && rest[j - 1] in rest;
      }
    }
  }

  // ---------------------------------------------------------------------------
  // str(int) and negative slicing
  // ---------------------------------------------------------------------------

  function DigitChar(d: nat): (c: char)
    requires d < 10
    ensures '0' <= c <= '9'
  {
    "0123456789"[d]
  }

  /** `str(n)` for a natural number. */
  function NatToDecimal(n: nat): (r: string)
    ensures |r| >= 1
    ensures forall i | 0 <= i < |r| :: '0' <= r[i] <= '9'
    decreases n
  {
    if n < 10 then [DigitChar(n)] else NatToDecimal(n / 10) + [DigitChar(n % 10)]
  }

  /** `str(i)` for an integer. */
  function IntToDecimal(i: int): string {
    if i < 0 then "-" + NatToDecimal(-i) else NatToDecimal(i)
  }

  /** `s[-n:]`: the last `n` characters of `s`, or all of it when shorter.
      Python reads `-0` as `0`, so `s[-0:]` is the whole string. */
  function Tail(s: string, n: nat): (r: string)
    ensures |r| == if n == 0 || |s| < n then |s| else n
    ensures s == s[..|s| - |r|] + r
  {
    if n == 0 || |s| <= n then s else s[|s| - n..]
  }

  // ---------------------------------------------------------------------------
  // repr() of a string
  // ---------------------------------------------------------------------------

  function HexDigit(d: nat): (c: char)
    requires d < 16
  {
    "0123456789abcdef"[d]
  }

  /** The value of a lower-case hexadecimal digit. */
  function HexValue(c: char): Option<nat> {
    if '0' <= c <= '9' then Some(c as nat - '0' as nat)
    else if 'a' <= c <= 'f' then Some(c as nat - 'a' as nat + 10)
    else None
  }

  lemma HexDigitValue(d: nat)
    requires d < 16
    ensures HexValue(HexDigit(d)) == Some(d)
  {
  }

  /** The quote `repr()` puts around a string: a double quote when the text
      holds a single quote and no double quote, a single quote otherwise. */
  function ReprQuote(s: string): (q: char)
    ensures q == '"' <==> '\'' in s && '"' !in s
    ensures q == '\'' || q == '"'
  {
    if '\'' in s && '"' !in s then '"' else '\''
  }

  /** A character `repr()` writes as `\xNN`: ASCII control characters and DEL. */
  predicate HexEscaped(c: char) {
    (c < ' ' && c != '\t' && c != '\n' && c != '\r') || c as int == 0x7f
  }

  /** One character inside a `repr()` quoted by `q`. Characters outside ASCII
      are kept as they are. */
  function ReprChar(c: char, q: char): (r: string)
    ensures c != q && c != '\\' && c != '\t' && c != '\n' && c != '\r' && !HexEscaped(c) <==> r == [c]
  {
    if c == q || c == '\\' then ['\\', c]
    else if c == '\t' then "\\t"
    else if c == '\n' then "\\n"
    else if c == '\r' then "\\r"
    else if HexEscaped(c) then "\\x" + [HexDigit(c as nat / 16), HexDigit(c as nat % 16)]
    else [c]
  }

  /** The text between the quotes of a `repr()` quoted by `q`. */
  function ReprText(s: string, q: char): (r: string)
    ensures |r| >= |s|
  {
    if |s| == 0 then [] else ReprChar(s[0], q) + ReprText(s[1..], q)
  }

  /** A character `repr()` quoted by `q` writes as itself, within ASCII. */
  predicate PlainChar(c: char, q: char) {
    c != q && c != '\\' && ' ' <= c && c as int != 0x7f
  }

  /** `repr(s)` for a string. */
  function StrRepr(s: string): (r: string)
    ensures |r| >= |s| + 2
    ensures r[0] == r[|r| - 1] == ReprQuote(s)
    ensures (forall i | 0 <= i < |s| :: PlainChar(s[i], '\'')) ==> r == "'" + s + "'"
  {
    var q := ReprQuote(s);
    assert (forall i | 0 <= i < |s| :: PlainChar(s[i], '\'')) ==> q == '\'' && ReprText(s, q) == s by {
      if forall i | 0 <= i < |s| :: PlainChar(s[i], '\'') {
        ReprTextPlain(s, '\'');
      }
    }
    [q] + ReprText(s, q) + [q]
  }

  lemma {:induction false} ReprTextPlain(s: string, q: char)
    requires forall i | 0 <= i < |s| :: PlainChar(s[i], q)
    ensures ReprText(s, q) == s
  {
    if |s| > 0 {
      assert PlainChar(s[0], q);
      assert ReprChar(s[0], q) == [s[0]];
      ReprTextPlain(s[1..], q);
      assert s == [s[0]] + s[1..];
    }
  }

  /** `c` in front of a decoded text, if there is one. */
  function Cons(c: char, rest: Option<string>): Option<string> {
    if rest.Some? then Some([c] + rest.value) else None
  }

  /** Reads the text between the quotes of a `repr()` quoted by `q` back:
      `None` for a bare quote or an escape `repr()` does not write. */
  function UnreprText(t: string, q: char): Option<string>
    decreases |t|
  {
    if |t| == 0 then Some([])
    else if t[0] == q then None
    else if t[0] != '\\' then Cons(t[0], UnreprText(t[1..], q))
    else if |t| < 2 then None
    else if t[1] == q || t[1] == '\\' then Cons(t[1], UnreprText(t[2..], q))
    else if t[1] == 't' then Cons('\t', UnreprText(t[2..], q))
    else if t[1] == 'n' then Cons('\n', UnreprText(t[2..], q))
    else if t[1] == 'r' then Cons('\r', UnreprText(t[2..], q))
    else if t[1] == 'x' && |t| >= 4 && HexValue(t[2]).Some? && HexValue(t[3]).Some? then
      Cons((HexValue(t[2]).value * 16 + HexValue(t[3]).value) as char, UnreprText(t[4..], q))
    else None
  }

  /** Reading back one written character. */
  lemma UnreprChar(c: char, q: char, w: string)
    requires q == '\'' || q == '"'
    ensures UnreprText(ReprChar(c, q) + w, q) == Cons(c, UnreprText(w, q))
  {
    var t := ReprChar(c, q) + w;
    if c == q || c == '\\' {
      assert t[2..] == w;
    } else if c == '\t' || c == '\n' || c == '\r' {
      assert t[2..] == w;
    } else if HexEscaped(c) {
      HexDigitValue(c as nat / 16);
      HexDigitValue(c as nat % 16);
      assert t[4..] == w;
    } else {
      assert t[1..] == w;
    }
  }

  /** The text `repr()` writes between its quotes reads back to the string. */
  lemma {:induction false} UnreprReprText(s: string, q: char)
    requires q == '\'' || q == '"'
    ensures UnreprText(ReprText(s, q), q) == Some(s)
  {
    if |s| > 0 {
      var w := ReprText(s[1..], q);
      assert ReprText(s, q) == ReprChar(s[0], q) + w;
      UnreprReprText(s[1..], q);
      UnreprChar(s[0], q, w);
      assert s == [s[0]] + s[1..];
    }
  }

  /** `repr()` loses nothing: the quote it chose opens and closes it, and the
      text between reads back to the string. */
  lemma StrReprRoundTrip(s: string)
    ensures var r := StrRepr(s);
            UnreprText(r[1..|r| - 1], r[0]) == Some(s)
  {
    var r := StrRepr(s);
    assert r[1..|r| - 1] == ReprText(s, ReprQuote(s));
    UnreprReprText(s, ReprQuote(s));
  }

  /** Two strings never have the same `repr()`. */
  lemma StrReprInjective(a: string, b: string)
    requires StrRepr(a) == StrRepr(b)
    ensures a == b
  {
    StrReprRoundTrip(a);
    StrReprRoundTrip(b);
  }

  /** A backslash is doubled, as in the list `['a\\\\&']`. */
  lemma StrReprDoublesBackslash()
    ensures StrRepr("a\\&") == "'a\\\\&'"
  {
    assert ReprText("a\\&", '\'') == ReprChar('a', '\'') + ReprText("\\&", '\'');
    assert ReprText("\\&", '\'') == ReprChar('\\', '\'') + ReprText("&", '\'');
  }

  /** A single quote in the text switches to double quotes. */
  lemma StrReprSwitchesQuote()
    ensures StrRepr("it's") == "\"it's\""
  {
    assert ReprText("it's", '"') == ReprChar('i', '"') + ReprText("t's", '"');
    assert ReprText("t's", '"') == ReprChar('t', '"') + ReprText("'s", '"');
  }
}
