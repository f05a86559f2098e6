/**
 * The prompt generator in `scripts/regenerate_prompt.py`: the comment and
 * docstring remover, the per-file block with its header, and the assembly
 * of the prompt from `main.py` and the `.py` files of the `tests` folder.
 */
module PromptScript {
  import opened Wrappers
  import Text
  import PosixPath

  // ---------------------------------------------------------------- the comment pass

  /** The end of the line that starts at or after `k`: the next '\n', or the end of the text. */
  function LineEnd(s: string, k: nat): (e: nat)
    requires k <= |s|
    ensures k <= e <= |s|
    ensures forall j | k <= j < e :: s[j] != '\n'
    ensures e == |s| || s[e] == '\n'
    decreases |s| - k
  {
    if k == |s| || s[k] == '\n' then k else LineEnd(s, k + 1)
  }

  /**
   * Where the pattern `(^|\s)#.*` matches at `i`, the end of that match: a
   * '#' that starts the text, or a whitespace character followed by '#',
   * then everything up to the line break.
   */
  function HashCommentAt(s: string, i: nat): (e: Option<nat>)
    requires i < |s|
    ensures e.Some? ==> i < e.value <= |s| && (e.value == |s| || s[e.value] == '\n')
    ensures e.Some? ==> forall j | i < j < e.value :: s[j] != '\n'
    ensures e.Some? <==> (i == 0 && s[0] == '#') || (Text.IsSpace(s[i]) && i + 1 < |s| && s[i + 1] == '#')
  {
    if i == 0 && s[0] == '#' then Some(LineEnd(s, 1))
    else if Text.IsSpace(s[i]) && i + 1 < |s| && s[i + 1] == '#' then Some(LineEnd(s, i + 2))
    else None
  }

  /**
   * `re.sub(r"(^|\s)#.*", "", s)` on the text from `i` on: each match is
   * deleted, the search resuming right after it; every other character is
   * kept. A match stops before the line break, which is kept, although the
   * next match may start with it.
   */
  function StripHashComments(s: string, i: nat): (r: string)
    requires i <= |s|
    ensures |r| <= |s| - i
    ensures r != [] ==> r[0] == s[i] || r[0] == '\n'
    decreases |s| - i
  {
    if i == |s| then ""
    else match HashCommentAt(s, i)
      case Some(e) => StripHashComments(s, e)
      case None => [s[i]] + StripHashComments(s, i + 1)
  }

  /** Text without '#' passes through the comment pass unchanged. */
  lemma {:induction false} NoHashUnchanged(s: string, i: nat)
    requires i <= |s|
    requires forall k | i <= k < |s| :: s[k] != '#'
    ensures StripHashComments(s, i) == s[i..]
    decreases |s| - i
  {
    if i < |s| {
      NoHashUnchanged(s, i + 1);
      assert s[i..] == [s[i]] + s[i + 1..];
    }
  }

  /** Text where no comment starts passes through the comment pass unchanged: a '#' after a non-space stays. */
  lemma {:induction false} NoCommentUnchanged(s: string, i: nat)
    requires i <= |s|
    requires forall k | i <= k < |s| :: HashCommentAt(s, k).None?
    ensures StripHashComments(s, i) == s[i..]
    decreases |s| - i
  {
    if i < |s| {
      NoCommentUnchanged(s, i + 1);
      assert s[i..] == [s[i]] + s[i + 1..];
    }
  }

  /**
   * The pass up to the first comment start `k`: the text before it is kept,
   * the comment up to its line break is dropped, and the pass resumes at the
   * line break.
   */
  lemma {:induction false} FirstCommentDropped(s: string, i: nat, k: nat)
    requires i <= k < |s|
    requires forall j | i <= j < k :: HashCommentAt(s, j).None?
    requires HashCommentAt(s, k).Some?
    ensures StripHashComments(s, i) == s[i..k] + StripHashComments(s, HashCommentAt(s, k).value)
    decreases k - i
  {
    if i < k {
      KeptCharacter(s, i);
      FirstCommentDropped(s, i + 1, k);
      ConsPrefix(s, i, k, StripHashComments(s, HashCommentAt(s, k).value));
    } else {
      assert s[i..k] == [];
    }
  }

  /** A position where no comment starts keeps its character. */
  lemma KeptCharacter(s: string, i: nat)
    requires i < |s| && HashCommentAt(s, i).None?
    ensures StripHashComments(s, i) == [s[i]] + StripHashComments(s, i + 1)
  {
  }

  lemma ConsPrefix(s: string, i: nat, k: nat, tail: string)
    requires i < k <= |s|
    ensures [s[i]] + (s[i + 1..k] + tail) == s[i..k] + tail
  {
    assert s[i..k] == [s[i]] + s[i + 1..k];
  }

  /** `a #c` over the line `b#d`: the comment goes, the line break and `b#d` stay. */
  lemma CommentPassSample()
    ensures StripHashComments("a #c\nb#d", 0) == "a\nb#d"
  {
    var s := "a #c\nb#d";
    assert HashCommentAt(s, 0).None?;
    assert LineEnd(s, 3) == 4;
    assert HashCommentAt(s, 1) == Some(4);
    FirstCommentDropped(s, 0, 1);
    assert HashCommentAt(s, 4).None? && HashCommentAt(s, 5).None?;
    assert HashCommentAt(s, 6).None? && HashCommentAt(s, 7).None?;
    NoCommentUnchanged(s, 4);
    assert s[0..1] + s[4..] == "a\nb#d";
  }

  /** No '#' starts the text or follows a whitespace character. */
  predicate NoCommentStart(r: string) {
    (r == [] || r[0] != '#') && forall k | 0 < k < |r| && r[k] == '#' :: !Text.IsSpace(r[k - 1])
  }

  /** What the comment pass leaves from `i` on: no comment starts inside it, and a leading '#' is one the pass kept. */
  lemma {:induction false} HashCommentsGone(s: string, i: nat)
    requires i <= |s|
    ensures var r := StripHashComments(s, i);
      && (forall k | 0 < k < |r| && r[k] == '#' :: !Text.IsSpace(r[k - 1]))
      && (r != [] && r[0] == '#' ==> 0 < i < |s| && s[i] == '#' && HashCommentAt(s, i).None?)
    decreases |s| - i
  {
    if i < |s| {
      match HashCommentAt(s, i)
      case Some(e) =>
        HashCommentsGone(s, e);
      case None =>
        HashCommentsGone(s, i + 1);
        var rest := StripHashComments(s, i + 1);
        var r := [s[i]] + rest;
        forall k | 0 < k < |r| && r[k] == '#' ensures !Text.IsSpace(r[k - 1]) {
          if k > 1 {
            assert r[k] == rest[k - 1] && r[k - 1] == rest[k - 2];
          }
        }
    }
  }

  /** After the comment pass, no '#' starts the text or follows whitespace. */
  lemma CommentPassClean(s: string)
    ensures NoCommentStart(StripHashComments(s, 0))
  {
    HashCommentsGone(s, 0);
  }

  // ---------------------------------------------------------------- the docstring pass

  /** Three quote characters `q` start at `k`. */
  predicate TripleAt(s: string, k: nat, q: char) {
    k + 3 <= |s| && s[k] == q && s[k + 1] == q && s[k + 2] == q
  }

  /** The first `k >= from` where three quotes `q` start. */
  function FindTriple(s: string, q: char, from: nat): (r: Option<nat>)
    requires from <= |s|
    ensures r.Some? ==> from <= r.value && TripleAt(s, r.value, q)
    ensures forall k | from <= k && (r.None? || k < r.value) :: !TripleAt(s, k, q)
    decreases |s| - from
  {
    if from + 3 > |s| then None
    else if TripleAt(s, from, q) then Some(from)
    else FindTriple(s, q, from + 1)
  }

  /**
   * Where `"""(.*?)"""|'''(.*?)'''` (with `.` matching line breaks) matches
   * at `i`, the end of that match: the opening quotes, then everything up to
   * and including the first closing triple of the same quote.
   */
  function DocstringAt(s: string, i: nat): (e: Option<nat>)
    requires i <= |s|
    ensures e.Some? ==> i + 6 <= e.value <= |s|
    ensures e.Some? && TripleAt(s, i, '"') ==>
              TripleAt(s, e.value - 3, '"') && forall k | i + 3 <= k < e.value - 3 :: !TripleAt(s, k, '"')
    ensures e.Some? && !TripleAt(s, i, '"') ==>
              TripleAt(s, i, '\'') && TripleAt(s, e.value - 3, '\'') && forall k | i + 3 <= k < e.value - 3 :: !TripleAt(s, k, '\'')
    ensures e.None? <==> forall q | q == '"' || q == '\'' :: !TripleAt(s, i, q) || FindTriple(s, q, i + 3).None?
  {
    if TripleAt(s, i, '"') then
      match FindTriple(s, '"', i + 3)
      case Some(k) => Some(k + 3)
      case None => None
    else if TripleAt(s, i, '\'') then
      match FindTriple(s, '\'', i + 3)
      case Some(k) => Some(k + 3)
      case None => None
    else None
  }

  /** `re.sub` of the docstring pattern on the text from `i` on. */
  function StripDocstrings(s: string, i: nat): (r: string)
    requires i <= |s|
    ensures |r| <= |s| - i
    decreases |s| - i
  {
    if i == |s| then ""
    else match DocstringAt(s, i)
      case Some(e) => StripDocstrings(s, e)
      case None => [s[i]] + StripDocstrings(s, i + 1)
  }

  /** Text without three quotes in a row passes through the docstring pass unchanged. */
  lemma {:induction false} NoTripleUnchanged(s: string, i: nat)
    requires i <= |s|
    requires forall k | i <= k < |s| :: !TripleAt(s, k, '"') && !TripleAt(s, k, '\'')
    ensures StripDocstrings(s, i) == s[i..]
    decreases |s| - i
  {
    if i < |s| {
      NoTripleUnchanged(s, i + 1);
      assert s[i..] == [s[i]] + s[i + 1..];
    }
  }

  /** A docstring followed by code: the docstring, and only it, is removed. */
  lemma {:induction false} DocstringRemoved(body: string, rest: string)
    requires forall k | 0 <= k < |body| :: !TripleAt(body + "\"\"\"", k, '"')
    requires forall k | 0 <= k < |rest| :: !TripleAt(rest, k, '"') && !TripleAt(rest, k, '\'')
    ensures StripDocstrings("\"\"\"" + body + "\"\"\"" + rest, 0) == rest
  {
    var s := "\"\"\"" + body + "\"\"\"" + rest;
    var e := |body| + 6;
    assert TripleAt(s, 0, '"');
    assert TripleAt(s, |body| + 3, '"');
    var closed := body + "\"\"\"";
    forall k | 3 <= k < |body| + 3 ensures !TripleAt(s, k, '"') {
      assert s[k] == closed[k - 3] && s[k + 1] == closed[k - 2] && s[k + 2] == closed[k - 1];
      assert !TripleAt(closed, k - 3, '"');
    }
    assert FindTriple(s, '"', 3) == Some(|body| + 3);
    assert DocstringAt(s, 0) == Some(e);
    forall k | e <= k < |s| ensures !TripleAt(s, k, '"') && !TripleAt(s, k, '\'') {
      assert s[k] == rest[k - e];
      if k + 3 <= |s| {
        assert s[k + 1] == rest[k - e + 1] && s[k + 2] == rest[k - e + 2];
      }
      assert !TripleAt(rest, k - e, '"') && !TripleAt(rest, k - e, '\'');
    }
    NoTripleUnchanged(s, e);
    assert s[e..] == rest;
  }

  /** `"""ab"""x`: the docstring goes, `x` stays. */
  lemma DocstringSample()
    ensures StripDocstrings("\"\"\"ab\"\"\"x", 0) == "x"
  {
    var t := "ab" + "\"\"\"";
    assert !TripleAt(t, 0, '"') && !TripleAt(t, 1, '"');
    assert !TripleAt("x", 0, '"') && !TripleAt("x", 0, '\'');
    DocstringRemoved("ab", "x");
    assert "\"\"\"" + "ab" + "\"\"\"" + "x" == "\"\"\"ab\"\"\"x";
  }

  // ---------------------------------------------------------------- remove_comments_from_code

  /** remove_comments_from_code: the comment pass, then the docstring pass, then `strip()`. */
  function RemoveComments(code: string): (r: string)
    ensures r == [] || (!Text.IsSpace(r[0]) && !Text.IsSpace(r[|r| - 1]))
    ensures |r| <= |code|
  {
    Text.Strip(StripDocstrings(StripHashComments(code, 0), 0))
  }

  /** Code with neither '#' nor three quotes in a row is only stripped. */
  lemma PlainCodeOnlyStripped(code: string)
    requires '#' !in code
    requires forall k | 0 <= k < |code| :: !TripleAt(code, k, '"') && !TripleAt(code, k, '\'')
    ensures RemoveComments(code) == Text.Strip(code)
  {
    NoHashUnchanged(code, 0);
    assert code[0..] == code;
    NoTripleUnchanged(code, 0);
  }

  // ---------------------------------------------------------------- get_file_content_with_header

  /** The line that names a file in the prompt. */
  function Header(path: string): string {
    "--- " + PosixPath.Basename(path) + " ---\n"
  }

  /** What the block holds for a file: its content (without comments if asked), or the read error. */
  function Body(path: string, read: Result<string, string>, removeComments: bool): string {
    match read
    case Success(content) => if removeComments then RemoveComments(content) else content
    case Failure(err) => "Error reading " + path + ": " + err
  }

  /**
   * get_file_content_with_header, the file having been read as `read`
   * (Failure carries the message of the exception): the header, the body,
   * and a final line break.
   */
  function FileBlock(path: string, read: Result<string, string>, removeComments: bool): string {
    Header(path) + Body(path, read, removeComments) + "\n"
  }

  /** The block is the header, then the body, then one line break. */
  lemma FileBlockLayout(path: string, read: Result<string, string>, removeComments: bool)
    ensures var r := FileBlock(path, read, removeComments);
      && |r| == |Header(path)| + |Body(path, read, removeComments)| + 1
      && Text.StartsWith(r, Header(path)) && Text.EndsWith(r, "\n")
      && r[|Header(path)|..|r| - 1] == Body(path, read, removeComments)
  {
    var h := Header(path);
    var b := Body(path, read, removeComments);
    var r := h + b + "\n";
    assert r[..|h|] == h;
    assert r[|h|..|r| - 1] == b;
  }

  /** The header names the file by its last path component, which holds no '/'. */
  lemma HeaderNamesFile(path: string)
    ensures var h := Header(path);
      |h| == |PosixPath.Basename(path)| + 9 && h[4..|h| - 5] == PosixPath.Basename(path) && '/' !in h[4..|h| - 5]
  {
    var n := PosixPath.Basename(path);
    var h := "--- " + n + " ---\n";
    assert h[4..|h| - 5] == n;
  }

  /** Read without comment removal, the block gives back the content verbatim. */
  lemma BlockKeepsContent(path: string, content: string)
    ensures var r := FileBlock(path, Success(content), false); r[|Header(path)|..|r| - 1] == content
  {
    FileBlockLayout(path, Success(content), false);
  }

  /** A read failure still yields the header, then the path and the error message. */
  lemma BlockReportsError(path: string, err: string)
    ensures var r := FileBlock(path, Failure(err), true);
      var body := r[|Header(path)|..|r| - 1];
      Text.StartsWith(body, "Error reading " + path + ": ") && Text.EndsWith(body, err)
  {
    FileBlockLayout(path, Failure(err), true);
    var body := "Error reading " + path + ": " + err;
    assert body[..|"Error reading " + path + ": "|] == "Error reading " + path + ": ";
    assert body[|body| - |err|..] == err;
  }

  // ---------------------------------------------------------------- execute

  /** An entry of `os.listdir(tests)`: its name and what opening it as text gives. */
  datatype DirEntry = DirEntry(name: string, read: Result<string, string>)

  predicate SortedByName(es: seq<DirEntry>) {
    forall i, j | 0 <= i < j < |es| :: Text.NameLe(es[i].name, es[j].name)
  }

  /** Inserts `e` into `es` before the first entry it does not follow. */
  function InsertByName(e: DirEntry, es: seq<DirEntry>): (r: seq<DirEntry>)
    ensures multiset(r) == multiset(es) + multiset{e}
    ensures forall x | x in r :: x == e || x in es
  {
    if es == [] then [e]
    else if Text.NameLe(e.name, es[0].name) then [e] + es
    else
      assert es == [es[0]] + es[1..];
      [es[0]] + InsertByName(e, es[1..])
  }

  /** An entry that no entry of a sorted listing precedes can go in front of it. */
  lemma ConsSorted(h: DirEntry, rest: seq<DirEntry>)
    requires SortedByName(rest)
    requires forall x | x in rest :: Text.NameLe(h.name, x.name)
    ensures SortedByName([h] + rest)
  {
    var r := [h] + rest;
    forall i, j | 0 <= i < j < |r| ensures Text.NameLe(r[i].name, r[j].name) {
      if i == 0 {
        assert r[j] == rest[j - 1];
      } else {
        assert r[i] == rest[i - 1] && r[j] == rest[j - 1];
      }
    }
  }

  /** Insertion keeps a sorted listing sorted. */
  lemma {:induction false} InsertByNameSorted(e: DirEntry, es: seq<DirEntry>)
    requires SortedByName(es)
    ensures SortedByName(InsertByName(e, es))
  {
    if es == [] {
    } else if Text.NameLe(e.name, es[0].name) {
      forall x | x in es ensures Text.NameLe(e.name, x.name) {
        if x != es[0] {
          var j :| 0 < j < |es| && es[j] == x;
          Text.NameLeTransitive(e.name, es[0].name, x.name);
        }
      }
      ConsSorted(e, es);
    } else {
      Text.NameLeTotal(e.name, es[0].name);
      var tail := es[1..];
      assert SortedByName(tail) by {
        forall i, j | 0 <= i < j < |tail| ensures Text.NameLe(tail[i].name, tail[j].name) {
          assert tail[i] == es[i + 1] && tail[j] == es[j + 1];
        }
      }
      InsertByNameSorted(e, tail);
      var rest := InsertByName(e, tail);
      forall x | x in rest ensures Text.NameLe(es[0].name, x.name) {
        if x != e {
          var j :| 0 <= j < |tail| && tail[j] == x;
          assert es[j + 1] == x;
        }
      }
      ConsSorted(es[0], rest);
    }
  }

  /** `sorted(names)`: the entries in code-point order of their names. */
  function SortByName(es: seq<DirEntry>): (r: seq<DirEntry>)
    ensures multiset(r) == multiset(es)
    ensures SortedByName(r)
  {
    if es == [] then []
    else
      assert es == [es[0]] + es[1..];
      InsertByNameSorted(es[0], SortByName(es[1..]));
      InsertByName(es[0], SortByName(es[1..]))
  }

  const PY_SUFFIX: string := ".py"
  const MAIN_FILE: string := "main.py"
  const TESTS_DIR: string := "tests"
  const CLOSING: string := "Give me a very brief description of the Situation."

  /** The entries whose name ends in ".py", in the given order. */
  function PyFiles(es: seq<DirEntry>): (r: seq<DirEntry>)
    ensures forall x | x in r :: x in es && Text.EndsWith(x.name, PY_SUFFIX)
    ensures forall x | x in es && Text.EndsWith(x.name, PY_SUFFIX) :: x in r
  {
    if es == [] then []
    else
      var init := es[..|es| - 1];
      var last := es[|es| - 1];
      assert es == init + [last];
      if Text.EndsWith(last.name, PY_SUFFIX) then PyFiles(init) + [last] else PyFiles(init)
  }

  /** The filter works entry by entry: two stretches of a listing keep their ".py" entries one after the other. */
  lemma {:induction false} PyFilesAppend(xs: seq<DirEntry>, ys: seq<DirEntry>)
    ensures PyFiles(xs + ys) == PyFiles(xs) + PyFiles(ys)
  {
    if ys == [] {
      assert xs + ys == xs;
    } else {
      var init := ys[..|ys| - 1];
      assert (xs + ys)[..|xs + ys| - 1] == xs + init;
      assert (xs + ys)[|xs + ys| - 1] == ys[|ys| - 1];
      PyFilesAppend(xs, init);
    }
  }

  /** One more entry at the end is kept, at the end, exactly when its name ends in ".py". */
  lemma PyFilesSnoc(es: seq<DirEntry>, e: DirEntry)
    ensures PyFiles(es + [e]) == PyFiles(es) + if Text.EndsWith(e.name, PY_SUFFIX) then [e] else []
  {
    PyFilesAppend(es, [e]);
    assert [e][..0] == [];
  }

  /** Each ".py" entry is kept as often as it is listed, and no other entry is kept. */
  lemma {:induction false} PyFilesCount(es: seq<DirEntry>)
    ensures forall x :: multiset(PyFiles(es))[x] == if Text.EndsWith(x.name, PY_SUFFIX) then multiset(es)[x] else 0
  {
    if es != [] {
      var init := es[..|es| - 1];
      var last := es[|es| - 1];
      assert es == init + [last];
      PyFilesCount(init);
    }
  }

  /** Filtering keeps a sorted listing sorted. */
  lemma {:induction false} PyFilesSorted(es: seq<DirEntry>)
    requires SortedByName(es)
    ensures SortedByName(PyFiles(es))
  {
    if es != [] {
      var init := es[..|es| - 1];
      var last := es[|es| - 1];
      assert SortedByName(init);
      PyFilesSorted(init);
      var r := PyFiles(init);
      if Text.EndsWith(last.name, PY_SUFFIX) {
        forall x | x in r ensures Text.NameLe(x.name, last.name) {
          var i :| 0 <= i < |init| && init[i] == x;
          assert es[i] == x;
        }
        var r2 := r + [last];
        forall i, j | 0 <= i < j < |r2| ensures Text.NameLe(r2[i].name, r2[j].name) {
          if j == |r| {
            assert r2[i] in r;
          } else {
            assert r2[i] == r[i] && r2[j] == r[j];
          }
        }
      }
    }
  }

  /** The block of an entry of the folder `dir`. */
  function EntryBlock(dir: string, e: DirEntry, removeComments: bool): string {
    FileBlock(PosixPath.Join(dir, e.name), e.read, removeComments)
  }

  /** One block per entry, in order. */
  function TestBlocks(dir: string, es: seq<DirEntry>, removeComments: bool): (r: seq<string>)
    ensures |r| == |es|
    ensures forall k | 0 <= k < |es| :: r[k] == EntryBlock(dir, es[k], removeComments)
  {
    seq(|es|, k requires 0 <= k < |es| => EntryBlock(dir, es[k], removeComments))
  }

  /** Appending an entry appends its block. */
  lemma TestBlocksSnoc(dir: string, es: seq<DirEntry>, e: DirEntry, removeComments: bool)
    ensures TestBlocks(dir, es + [e], removeComments) == TestBlocks(dir, es, removeComments) + [EntryBlock(dir, e, removeComments)]
  {
    var a := TestBlocks(dir, es + [e], removeComments);
    var b := TestBlocks(dir, es, removeComments);
    forall k | 0 <= k < |b| ensures a[k] == b[k] {
      assert (es + [e])[k] == es[k];
    }
    assert (es + [e])[|es|] == e;
    SnocPointwise(a, b, EntryBlock(dir, e, removeComments));
  }

  /** A sequence one longer than `b`, agreeing with it and ending in `x`, is `b + [x]`. */
  lemma SnocPointwise(a: seq<string>, b: seq<string>, x: string)
    requires |a| == |b| + 1 && a[|b|] == x
    requires forall k | 0 <= k < |b| :: a[k] == b[k]
    ensures a == b + [x]
  {
  }

  /**
   * The parts execute joins, in order: the main.py block when main.py exists
   * (`main` is None otherwise), one block per ".py" entry of the tests folder
   * in sorted name order when that folder exists (`tests` is None
   * otherwise), and the closing request.
   */
  function PromptParts(root: string, removeComments: bool, main: Option<Result<string, string>>, tests: Option<seq<DirEntry>>): seq<string> {
    (if main.Some? then [FileBlock(PosixPath.Join(root, MAIN_FILE), main.value, removeComments)] else [])
    + (if tests.Some? then TestBlocks(PosixPath.Join(root, TESTS_DIR), PyFiles(SortByName(tests.value)), removeComments) else [])
    + [CLOSING]
  }

  lemma {:induction false} JoinStartsWithFirst(parts: seq<string>, sep: string)
    requires parts != []
    ensures Text.StartsWith(Text.Join(parts, sep), parts[0])
  {
  }

  /** The prompt always ends with the closing request. */
  lemma PromptEndsWithClosing(root: string, removeComments: bool, main: Option<Result<string, string>>, tests: Option<seq<DirEntry>>)
    ensures Text.EndsWith(Text.Join(PromptParts(root, removeComments, main, tests), "\n"), CLOSING)
  {
    var parts := PromptParts(root, removeComments, main, tests);
    var init := parts[..|parts| - 1];
    if init == [] {
      assert parts == [CLOSING];
    } else {
      assert parts == init + [CLOSING];
      Text.JoinSnoc(init, CLOSING, "\n");
    }
  }

  /** When main.py exists, the prompt opens with its block. */
  lemma PromptStartsWithMain(root: string, removeComments: bool, main: Result<string, string>, tests: Option<seq<DirEntry>>)
    ensures Text.StartsWith(Text.Join(PromptParts(root, removeComments, Some(main), tests), "\n"),
                            FileBlock(PosixPath.Join(root, MAIN_FILE), main, removeComments))
  {
    JoinStartsWithFirst(PromptParts(root, removeComments, Some(main), tests), "\n");
  }

  /** The test blocks follow the sorted ".py" entries of the folder, each as often as the folder lists it. */
  lemma TestsInOrder(tests: seq<DirEntry>)
    ensures SortedByName(PyFiles(SortByName(tests)))
    ensures forall e | e in tests :: Text.EndsWith(e.name, PY_SUFFIX) <==> e in PyFiles(SortByName(tests))
    ensures forall e | e in PyFiles(SortByName(tests)) :: e in tests
    ensures forall e :: multiset(PyFiles(SortByName(tests)))[e] == if Text.EndsWith(e.name, PY_SUFFIX) then multiset(tests)[e] else 0
  {
    var sorted := SortByName(tests);
    PyFilesSorted(sorted);
    PyFilesCount(sorted);
    forall e | e in tests ensures e in sorted {
      assert e in multiset(sorted);
    }
    forall e | e in sorted ensures e in tests {
      assert e in multiset(tests);
    }
  }

  /** Every ".py" entry of the tests folder has a block in the prompt parts. */
  lemma PromptHasEveryTest(root: string, removeComments: bool, main: Option<Result<string, string>>, tests: seq<DirEntry>, e: DirEntry)
    requires e in tests
    ensures Text.EndsWith(e.name, PY_SUFFIX) ==>
              FileBlock(PosixPath.Join(PosixPath.Join(root, TESTS_DIR), e.name), e.read, removeComments) in PromptParts(root, removeComments, main, Some(tests))
  {
    var sorted := SortByName(tests);
    assert e in multiset(sorted);
    if Text.EndsWith(e.name, PY_SUFFIX) {
      var files := PyFiles(sorted);
      var k :| 0 <= k < |files| && files[k] == e;
      var blocks := TestBlocks(PosixPath.Join(root, TESTS_DIR), files, removeComments);
      assert blocks[k] in blocks;
    }
  }

  /** The loop over the sorted listing of the tests folder: one block per ".py" entry. */
  method CollectTestBlocks(testsDir: string, names: seq<DirEntry>, removeComments: bool) returns (blocks: seq<string>)
    ensures blocks == TestBlocks(testsDir, PyFiles(names), removeComments)
  {
    blocks := [];
    for i := 0 to |names|
      invariant blocks == TestBlocks(testsDir, PyFiles(names[..i]), removeComments)
    {
      assert names[..i + 1] == names[..i] + [names[i]];
      if Text.EndsWith(names[i].name, PY_SUFFIX) {
        TestBlocksSnoc(testsDir, PyFiles(names[..i]), names[i], removeComments);
        blocks := blocks + [EntryBlock(testsDir, names[i], removeComments)];
      }
    }
    assert names[..|names|] == names;
  }

  /**
   * execute, up to the clipboard: the prompt built from the main.py block,
   * the test blocks in sorted order, and the closing request, joined by line
   * breaks.
   */
  method Execute(root: string, removeComments: bool, main: Option<Result<string, string>>, tests: Option<seq<DirEntry>>) returns (prompt: string)
    ensures prompt == Text.Join(PromptParts(root, removeComments, main, tests), "\n")
  {
    var mainPart: seq<string> := [];
    if main.Some? {
      mainPart := [FileBlock(PosixPath.Join(root, MAIN_FILE), main.value, removeComments)];
    }
    var testPart: seq<string> := [];
    if tests.Some? {
      testPart := CollectTestBlocks(PosixPath.Join(root, TESTS_DIR), SortByName(tests.value), removeComments);
    }
    var parts := mainPart + testPart + [CLOSING];
    assert parts == PromptParts(root, removeComments, main, tests);
    prompt := Text.Join(parts, "\n");
  }
}
