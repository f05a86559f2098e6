/**
 * The Zig import extractor: `set(re.findall(r'@import\s*\(\s*"(.*?)"\s*\)', content))`,
 * written as an explicit left-to-right scanner with the regex engine's choices:
 * `\s*` takes every whitespace character (the next literal is never whitespace),
 * the lazy `(.*?)` takes the shortest run without a '\n' that is followed by
 * `"`, whitespace and `)`, and the search resumes after each match.
 */
module ImportScan {
  import opened Wrappers
  import Text

  const IMPORT_KEYWORD: string := "@import"

  /** The end of the whitespace run starting at `i` (what `\s*` consumes). */
  function SkipSpaces(s: string, i: nat): (j: nat)
    requires i <= |s|
    ensures i <= j <= |s|
    ensures forall k | i <= k < j :: Text.IsSpace(s[k])
    ensures j == |s| || !Text.IsSpace(s[j])
    decreases |s| - i
  {
    if i < |s| && Text.IsSpace(s[i]) then SkipSpaces(s, i + 1) else i
  }

  /** A whitespace run from `i` that ends at `j` before a non-whitespace character is what `\s*` consumes. */
  lemma {:induction false} SkipSpacesUnique(s: string, i: nat, j: nat)
    requires i <= j <= |s|
    requires forall k | i <= k < j :: Text.IsSpace(s[k])
    requires j == |s| || !Text.IsSpace(s[j])
    ensures SkipSpaces(s, i) == j
    decreases j - i
  {
    if i < j {
      SkipSpacesUnique(s, i + 1, j);
    }
  }

  /** `s[k..m]` is whitespace only. */
  predicate SpacesBetween(s: string, k: nat, m: nat)
    requires k <= m <= |s|
  {
    forall x | k <= x < m :: Text.IsSpace(s[x])
  }

  /**
   * The opening `@import\s*\(\s*"` laid out in `s[i..b]`: the keyword,
   * whitespace, '(' at `a`, whitespace, and '"' at `b - 1`.
   */
  predicate OpensAt(s: string, i: nat, a: nat, b: nat) {
    && i + |IMPORT_KEYWORD| <= a < b - 1 && b <= |s|
    && s[i..i + |IMPORT_KEYWORD|] == IMPORT_KEYWORD
    && SpacesBetween(s, i + |IMPORT_KEYWORD|, a) && s[a] == '('
    && SpacesBetween(s, a + 1, b - 1) && s[b - 1] == '"'
  }

  /** The closing `"\s*\)` laid out in `s[q..e]`: '"', whitespace, ')'. */
  predicate ClosesAt(s: string, q: nat, e: nat) {
    && q + 2 <= e <= |s|
    && s[q] == '"' && SpacesBetween(s, q + 1, e - 1) && s[e - 1] == ')'
  }

  /** When `@import\s*\(\s*"` matches at `i`, the index just after the opening quote. */
  function OpenAt(s: string, i: nat): (b: Option<nat>)
    requires i <= |s|
    ensures b.Some? ==> i + |IMPORT_KEYWORD| + 2 <= b.value <= |s| && s[b.value - 1] == '"'
    ensures b.Some? ==> s[i..i + |IMPORT_KEYWORD|] == IMPORT_KEYWORD
  {
    if i + |IMPORT_KEYWORD| <= |s| && s[i..i + |IMPORT_KEYWORD|] == IMPORT_KEYWORD then
      var a := SkipSpaces(s, i + |IMPORT_KEYWORD|);
      if a < |s| && s[a] == '(' then
        var b := SkipSpaces(s, a + 1);
        if b < |s| && s[b] == '"' then Some(b + 1) else None
      else None
    else None
  }

  /** An opening found by OpenAt has the regex's layout. */
  lemma OpenAtSound(s: string, i: nat) returns (a: nat)
    requires i <= |s| && OpenAt(s, i).Some?
    ensures OpensAt(s, i, a, OpenAt(s, i).value)
  {
    a := SkipSpaces(s, i + |IMPORT_KEYWORD|);
  }

  /** An opening laid out as the regex demands is the one OpenAt finds: OpenAt is None only where no opening matches. */
  lemma OpenAtComplete(s: string, i: nat, a: nat, b: nat)
    requires OpensAt(s, i, a, b)
    ensures OpenAt(s, i) == Some(b)
  {
    SkipSpacesUnique(s, i + |IMPORT_KEYWORD|, a);
    SkipSpacesUnique(s, a + 1, b - 1);
  }

  /** When `"\s*\)` matches at `q`, the end of that match. */
  function CloseAt(s: string, q: nat): (e: Option<nat>)
    requires q <= |s|
    ensures e.Some? ==> ClosesAt(s, q, e.value)
  {
    if q < |s| && s[q] == '"' then
      var d := SkipSpaces(s, q + 1);
      if d < |s| && s[d] == ')' then Some(d + 1) else None
    else None
  }

  /** A closing laid out as the regex demands is the one CloseAt finds: CloseAt is None only where no closing matches. */
  lemma CloseAtComplete(s: string, q: nat, e: nat)
    requires ClosesAt(s, q, e)
    ensures CloseAt(s, q) == Some(e)
  {
    SkipSpacesUnique(s, q + 1, e - 1);
  }

  /**
   * The lazy group started at `b`: the least `q >= from` such that the group
   * `s[b..q]` holds no '\n' and the closing `"\s*\)` matches at `q`.
   * Yields `q` and the end of the whole match.
   */
  function CloseFrom(s: string, b: nat, from: nat): (r: Option<(nat, nat)>)
    requires b <= from <= |s|
    requires '\n' !in s[b..from]
    ensures r.Some? ==> from <= r.value.0 < |s| && CloseAt(s, r.value.0) == Some(r.value.1)
    ensures r.Some? ==> '\n' !in s[b..r.value.0]
    ensures r.Some? ==> forall k | from <= k < r.value.0 :: CloseAt(s, k).None?
    ensures r.None? ==> forall k | from <= k <= |s| && '\n' !in s[b..k] :: CloseAt(s, k).None?
    decreases |s| - from
  {
    if from == |s| then None
    else if CloseAt(s, from).Some? then Some((from, CloseAt(s, from).value))
    else if s[from] == '\n' then
      assert forall k | from < k <= |s| :: s[from] in s[b..k];
      None
    else
      assert s[b..from + 1] == s[b..from] + [s[from]];
      CloseFrom(s, b, from + 1)
  }

  /** The import match at `i`, if any: the captured identifier and the end of the match. */
  function MatchAt(s: string, i: nat): (m: Option<(string, nat)>)
    requires i <= |s|
    ensures m.Some? ==> i < m.value.1 <= |s| && '\n' !in m.value.0
  {
    match OpenAt(s, i)
    case None => None
    case Some(b) =>
      match CloseFrom(s, b, b)
      case None => None
      case Some((q, e)) => Some((s[b..q], e))
  }

  /**
   * The regex read declaratively: at `i` the opening matches up to `b`, and
   * `name` is the shortest '\n'-free text after `b` that the closing follows.
   */
  ghost predicate IsImportAt(s: string, i: nat, name: string)
    requires i <= |s|
  {
    && OpenAt(s, i).Some?
    && var b := OpenAt(s, i).value;
    && b + |name| <= |s|
    && s[b..b + |name|] == name
    && '\n' !in name
    && CloseAt(s, b + |name|).Some?
    && forall k | b <= k < b + |name| :: CloseAt(s, k).None?
  }

  /** The scanner finds exactly the match the regex describes, at every position. */
  lemma MatchAtIsImport(s: string, i: nat, name: string)
    requires i <= |s|
    ensures (MatchAt(s, i).Some? && MatchAt(s, i).value.0 == name) <==> IsImportAt(s, i, name)
  {
    if IsImportAt(s, i, name) {
      var b := OpenAt(s, i).value;
      var q := b + |name|;
      assert s[b..q] == name;
      assert '\n' !in s[b..b];
      assert CloseFrom(s, b, b).Some?;
    }
  }

  /** `re.findall` from position `i`: the captured identifiers, in order. */
  function FindAll(s: string, i: nat): (r: seq<string>)
    requires i <= |s|
    ensures forall k | 0 <= k < |r| :: '\n' !in r[k]
    decreases |s| - i
  {
    if i == |s| then []
    else
      match MatchAt(s, i)
      case Some((name, e)) => [name] + FindAll(s, e)
      case None => FindAll(s, i + 1)
  }

  /** Over positions where no match starts, the scan collects nothing and resumes where they end. */
  lemma {:induction false} FindAllSkipTo(s: string, i: nat, j: nat)
    requires i <= j <= |s|
    requires forall k | i <= k < j :: MatchAt(s, k).None?
    ensures FindAll(s, i) == FindAll(s, j)
    decreases j - i
  {
    if i < j {
      FindAllSkipTo(s, i, j - 1);
      FindAllSkips(s, j - 1);
    }
  }

  /** The scan from `i` collects the name of the first match at or after `i`, then goes on from its end. */
  lemma FindAllFirstMatch(s: string, i: nat, j: nat, name: string, e: nat)
    requires i <= j < |s|
    requires forall k | i <= k < j :: MatchAt(s, k).None?
    requires MatchAt(s, j) == Some((name, e))
    ensures FindAll(s, i) == [name] + FindAll(s, e)
  {
    FindAllSkipTo(s, i, j);
    FindAllTakes(s, j);
  }

  /** Where no match starts at or after `i`, the scan collects nothing. */
  lemma FindAllNoMatch(s: string, i: nat)
    requires i <= |s|
    requires forall k | i <= k < |s| :: MatchAt(s, k).None?
    ensures FindAll(s, i) == []
  {
    FindAllSkipTo(s, i, |s|);
  }

  /** No match at `i`: the scan moves on by one character. */
  lemma FindAllSkips(s: string, i: nat)
    requires i < |s| && MatchAt(s, i).None?
    ensures FindAll(s, i) == FindAll(s, i + 1)
  {
  }

  /** A match at `i`: the scan collects its name and resumes at its end. */
  lemma FindAllTakes(s: string, i: nat)
    requires i < |s| && MatchAt(s, i).Some?
    ensures FindAll(s, i) == [MatchAt(s, i).value.0] + FindAll(s, MatchAt(s, i).value.1)
  {
  }

  /**
   * Completeness: a regex match at `j`, with no match between the resume
   * point `i` and `j`, has its name collected.
   */
  lemma FindAllComplete(s: string, i: nat, j: nat, name: string)
    requires i <= j < |s|
    requires forall k | i <= k < j :: MatchAt(s, k).None?
    requires IsImportAt(s, j, name)
    ensures name in FindAll(s, i)
  {
    MatchAtIsImport(s, j, name);
    FindAllFirstMatch(s, i, j, name, MatchAt(s, j).value.1);
  }

  /** The distinct imported names of a file's content. */
  function Imports(content: string): set<string> {
    set name | name in FindAll(content, 0)
  }

  /** `s` has the text `@import` at position `k`. */
  predicate KeywordAt(s: string, k: nat) {
    k + |IMPORT_KEYWORD| <= |s| && s[k..k + |IMPORT_KEYWORD|] == IMPORT_KEYWORD
  }

  /** Every name found from `i` is captured by a match at some position at or after `i`. */
  lemma {:induction false} FindAllSound(s: string, i: nat, name: string)
    requires i <= |s|
    requires name in FindAll(s, i)
    ensures exists j | i <= j < |s| :: IsImportAt(s, j, name)
    decreases |s| - i
  {
    if i < |s| {
      match MatchAt(s, i)
      case Some((n, e)) =>
        if name == n {
          MatchAtIsImport(s, i, name);
        } else {
          FindAllSound(s, e, name);
        }
      case None =>
        FindAllSound(s, i + 1, name);
    }
  }

  /** Content that never spells `@import` from `i` on yields no import. */
  lemma {:induction false} NoKeywordNoImports(s: string, i: nat)
    requires i <= |s|
    requires forall k | i <= k < |s| :: !KeywordAt(s, k)
    ensures FindAll(s, i) == []
    decreases |s| - i
  {
    if i < |s| {
      assert !KeywordAt(s, i);
      NoKeywordNoImports(s, i + 1);
    }
  }

  /** The scan skips text without `@`, so a prefix free of it does not matter. */
  lemma {:induction false} SkipPlainText(s: string, i: nat, j: nat)
    requires i <= j <= |s|
    requires forall k | i <= k < j :: s[k] != '@'
    ensures FindAll(s, i) == FindAll(s, j)
    decreases j - i
  {
    if i < j {
      if i + |IMPORT_KEYWORD| <= |s| {
        assert s[i..i + |IMPORT_KEYWORD|][0] == s[i];
      }
      SkipPlainText(s, i + 1, j);
    }
  }

  const SAMPLE: string := "const s = @import(\"core\");"

  lemma SampleOpens()
    ensures OpenAt(SAMPLE, 10) == Some(19)
  {
    var s := SAMPLE;
    assert s[10..17] == IMPORT_KEYWORD;
    assert SkipSpaces(s, 17) == 17 && SkipSpaces(s, 18) == 18;
  }

  lemma SampleCloses()
    ensures CloseFrom(SAMPLE, 19, 19) == Some((23, 25))
  {
    var s := SAMPLE;
    assert SkipSpaces(s, 24) == 24;
    assert CloseAt(s, 23) == Some(25);
    assert CloseFrom(s, 19, 23) == Some((23, 25));
    assert CloseFrom(s, 19, 22) == Some((23, 25));
    assert CloseFrom(s, 19, 21) == Some((23, 25));
    assert CloseFrom(s, 19, 20) == Some((23, 25));
  }

  lemma SampleMatch()
    ensures MatchAt(SAMPLE, 10) == Some(("core", 25))
  {
    SampleOpens();
    SampleCloses();
    assert SAMPLE[19..23] == "core";
  }

  /** `const s = @import("core");` imports exactly "core". */
  lemma ImportsOfSample()
    ensures Imports(SAMPLE) == {"core"}
  {
    var s := SAMPLE;
    SkipPlainText(s, 0, 10);
    SampleMatch();
    NoKeywordNoImports(s, 25);
    assert FindAll(s, 0) == ["core"];
  }
}
