/**
 * The handful of Python `str` operations the core relies on: whitespace as
 * `str.isspace` and the regex class `\s` see it, `split`, `"sep".join`,
 * `startswith`/`endswith`, `strip`, and code-point ordering of strings.
 */
module Text {

  /** Python's `str.isspace()` (and `\s` in a `str` pattern): the Unicode whitespace characters. */
  predicate IsSpace(c: char) {
    || c == ' '
    || ('\t' <= c <= '\r')               // \t \n \v \f \r
    || ('\U{1C}' <= c <= '\U{1F}')       // file, group, record and unit separators
    || c == '\U{85}' || c == '\U{A0}' || c == '\U{1680}'
    || ('\U{2000}' <= c <= '\U{200A}')
    || c == '\U{2028}' || c == '\U{2029}' || c == '\U{202F}' || c == '\U{205F}' || c == '\U{3000}'
  }

  /** Number of occurrences of `c` in `s`. */
  function Count(s: string, c: char): nat {
    if s == [] then 0 else (if s[0] == c then 1 else 0) + Count(s[1..], c)
  }

  lemma {:induction false} CountZero(s: string, c: char)
    ensures Count(s, c) == 0 <==> c !in s
  {
    if s != [] {
      CountZero(s[1..], c);
      assert c in s <==> s[0] == c || c in s[1..];
    }
  }

  /** `sep.join(parts)`. */
  function Join(parts: seq<string>, sep: string): string {
    if parts == [] then ""
    else if |parts| == 1 then parts[0]
    else parts[0] + sep + Join(parts[1..], sep)
  }

  lemma {:induction false} JoinSnoc(parts: seq<string>, last: string, sep: string)
    requires parts != []
    ensures Join(parts + [last], sep) == Join(parts, sep) + sep + last
  {
    if |parts| == 1 {
      assert parts + [last] == [parts[0], last];
    } else {
      assert (parts + [last])[1..] == parts[1..] + [last];
      JoinSnoc(parts[1..], last, sep);
    }
  }

  /** Prefixing the first part with a non-separator: same parts after it, same separators, prefixed text. */
  lemma {:induction false} JoinConsHead(c: char, parts: seq<string>, sep: char)
    requires parts != [] && c != sep
    ensures var r := [[c] + parts[0]] + parts[1..];
      && |r| == |parts|
      && (forall i | 1 <= i < |r| :: r[i] == parts[i])
      && (sep in r[0] <==> sep in parts[0])
      && Join(r, [sep]) == [c] + Join(parts, [sep])
  {
    var r := [[c] + parts[0]] + parts[1..];
    assert r[1..] == parts[1..];
  }

  /** `s.split(sep)` for a one-character separator: every separator splits. */
  function Split(s: string, sep: char): (r: seq<string>)
    ensures |r| == Count(s, sep) + 1
    ensures forall i | 0 <= i < |r| :: sep !in r[i]
    ensures Join(r, [sep]) == s
  {
    if s == [] then [""]
    else
      var rest := Split(s[1..], sep);
      assert s == [s[0]] + s[1..];
      if s[0] == sep then
        [""] + rest
      else
        JoinConsHead(s[0], rest, sep);
        [[s[0]] + rest[0]] + rest[1..]
  }

  /**
   * What `s.split(sep, maxsplit)` returns: as many parts as there are
   * separators, up to `maxsplit`, plus one; no separator inside any part but
   * the last, nor in the last when every separator was split at; and the parts
   * joined by `sep` give `s` back.
   */
  predicate SplitMaxResult(s: string, sep: char, maxsplit: nat, r: seq<string>) {
    && |r| == (if Count(s, sep) < maxsplit then Count(s, sep) else maxsplit) + 1
    && (forall i | 0 <= i < |r| - 1 :: sep !in r[i])
    && (Count(s, sep) <= maxsplit ==> sep !in r[|r| - 1])
    && Join(r, [sep]) == s
  }

  /** A leading separator: an empty first part, then the split of the rest with one split fewer. */
  lemma SplitMaxAtSeparator(s: string, sep: char, maxsplit: nat, rest: seq<string>)
    requires s != [] && s[0] == sep && maxsplit > 0
    requires SplitMaxResult(s[1..], sep, maxsplit - 1, rest)
    ensures SplitMaxResult(s, sep, maxsplit, [""] + rest)
  {
    assert s == [sep] + s[1..];
    var r := [""] + rest;
    assert r[|r| - 1] == rest[|rest| - 1];
  }

  /** A leading ordinary character: it joins the first part of the rest's split. */
  lemma SplitMaxAtOther(s: string, sep: char, maxsplit: nat, rest: seq<string>)
    requires s != [] && s[0] != sep
    requires SplitMaxResult(s[1..], sep, maxsplit, rest)
    ensures SplitMaxResult(s, sep, maxsplit, [[s[0]] + rest[0]] + rest[1..])
  {
    assert s == [s[0]] + s[1..];
    JoinConsHead(s[0], rest, sep);
    var r := [[s[0]] + rest[0]] + rest[1..];
    assert r[|r| - 1] == if |rest| == 1 then r[0] else rest[|rest| - 1];
  }

  /** `s.split(sep, maxsplit)`: at most `maxsplit` splits, from the left; the remainder stays whole. */
  function SplitMax(s: string, sep: char, maxsplit: nat): (r: seq<string>)
    ensures SplitMaxResult(s, sep, maxsplit, r)
  {
    if maxsplit == 0 then
      CountZero(s, sep);
      [s]
    else if s == [] then [""]
    else if s[0] == sep then
      var rest := SplitMax(s[1..], sep, maxsplit - 1);
      SplitMaxAtSeparator(s, sep, maxsplit, rest);
      [""] + rest
    else
      var rest := SplitMax(s[1..], sep, maxsplit);
      SplitMaxAtOther(s, sep, maxsplit, rest);
      [[s[0]] + rest[0]] + rest[1..]
  }

  predicate StartsWith(s: string, prefix: string) {
    |prefix| <= |s| && s[..|prefix|] == prefix
  }

  predicate EndsWith(s: string, suffix: string) {
    |suffix| <= |s| && s[|s| - |suffix|..] == suffix
  }

  /** A suffix of a suffix is a suffix. */
  lemma EndsWithTrans(s: string, t: string, u: string)
    requires EndsWith(s, t) && EndsWith(t, u)
    ensures EndsWith(s, u)
  {
    assert s[|s| - |u|..] == s[|s| - |t|..][|t| - |u|..];
  }

  /** Length of the run of whitespace that `s.lstrip()` removes. */
  function LeadingSpaces(s: string): (n: nat)
    ensures n <= |s|
    ensures forall i | 0 <= i < n :: IsSpace(s[i])
    ensures n == |s| || !IsSpace(s[n])
  {
    if s != [] && IsSpace(s[0]) then 1 + LeadingSpaces(s[1..]) else 0
  }

  /** `s.rstrip()`. */
  function TrimEnd(s: string): (r: string)
    ensures |r| <= |s| && r == s[..|r|]
    ensures forall i | |r| <= i < |s| :: IsSpace(s[i])
    ensures r == [] || !IsSpace(r[|r| - 1])
  {
    if s != [] && IsSpace(s[|s| - 1]) then TrimEnd(s[..|s| - 1]) else s
  }

  /** `s.strip()`: `s` with its leading and trailing whitespace, and nothing else, removed. */
  function Strip(s: string): (r: string)
    ensures r == [] || (!IsSpace(r[0]) && !IsSpace(r[|r| - 1]))
    ensures LeadingSpaces(s) + |r| <= |s|
    ensures r == s[LeadingSpaces(s)..LeadingSpaces(s) + |r|]
    ensures forall i | LeadingSpaces(s) + |r| <= i < |s| :: IsSpace(s[i])
  {
    var lo := LeadingSpaces(s);
    var r := TrimEnd(s[lo..]);
    assert r == s[lo..lo + |r|];
    r
  }

  /** Python's `<=` on `str`: lexicographic by code point. */
  predicate NameLe(a: string, b: string) {
    if a == [] then true
    else if b == [] then false
    else if a[0] != b[0] then a[0] < b[0]
    else NameLe(a[1..], b[1..])
  }

  lemma {:induction false} NameLeTotal(a: string, b: string)
    ensures NameLe(a, b) || NameLe(b, a)
  {
    if a != [] && b != [] && a[0] == b[0] {
      NameLeTotal(a[1..], b[1..]);
    }
  }

  lemma {:induction false} NameLeAntisymmetric(a: string, b: string)
    requires NameLe(a, b) && NameLe(b, a)
    ensures a == b
  {
    if a != [] && b != [] {
      NameLeAntisymmetric(a[1..], b[1..]);
      assert a == [a[0]] + a[1..] && b == [b[0]] + b[1..];
    }
  }

  lemma {:induction false} NameLeTransitive(a: string, b: string, c: string)
    requires NameLe(a, b) && NameLe(b, c)
    ensures NameLe(a, c)
  {
    if a != [] && b != [] && c != [] && a[0] == b[0] && b[0] == c[0] {
      NameLeTransitive(a[1..], b[1..], c[1..]);
    }
  }
}
