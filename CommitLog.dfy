/**
 * Reading one line of `git log --pretty=format:%H|%at|%an|%s` into commit
 * fields, in the two ways the repository does it.
 */
module CommitLog {
  import opened Wrappers
  import Text

  datatype Commit = Commit(hash: string, timestamp: string, author: string, message: string)

  /** The line a commit's fields make when written back with '|' between them. */
  function Line(c: Commit): string {
    Text.Join([c.hash, c.timestamp, c.author, c.message], "|")
  }

  predicate NoBar(c: Commit) {
    '|' !in c.hash && '|' !in c.timestamp && '|' !in c.author && '|' !in c.message
  }

  /**
   * `line.split("|")` followed by `if len(commit_data) == 4`: a line gives a
   * commit exactly when it holds three '|', and the commit's fields are the
   * line's four '|'-free pieces.
   */
  function ParseExact(line: string): (r: Option<Commit>)
    ensures r.Some? <==> Text.Count(line, '|') == 3
    ensures r.Some? ==> NoBar(r.value) && Line(r.value) == line
  {
    var fields := Text.Split(line, '|');
    if |fields| == 4 then
      assert fields == [fields[0], fields[1], fields[2], fields[3]];
      Some(Commit(fields[0], fields[1], fields[2], fields[3]))
    else None
  }

  /** The line a malformed-line error reports. */
  datatype ParseError = NotEnoughFields(line: string)

  /**
   * `commit_hash, timestamp, author, message = line.split("|", 3)`: the line is
   * cut at its first three '|', so the message keeps any further '|'; a line
   * with fewer than three '|' cannot be unpacked into four names and raises.
   */
  function ParseFirstThree(line: string): (r: Result<Commit, ParseError>)
    ensures r.Success? <==> Text.Count(line, '|') >= 3
    ensures r.Success? ==> '|' !in r.value.hash && '|' !in r.value.timestamp && '|' !in r.value.author
    ensures r.Success? ==> Line(r.value) == line
    ensures r.Failure? ==> r.error == NotEnoughFields(line)
  {
    var fields := Text.SplitMax(line, '|', 3);
    if |fields| == 4 then
      assert fields == [fields[0], fields[1], fields[2], fields[3]];
      Success(Commit(fields[0], fields[1], fields[2], fields[3]))
    else Failure(NotEnoughFields(line))
  }

  /** On a line with exactly three '|' the two readings agree. */
  lemma {:induction false} ParsersAgree(line: string)
    requires Text.Count(line, '|') == 3
    ensures ParseFirstThree(line) == Success(ParseExact(line).value)
  {
    var a := ParseExact(line).value;
    var b := ParseFirstThree(line).value;
    JoinUnique(a, b);
  }

  /** Two commits whose first three fields hold no '|' and that write the same line are equal. */
  lemma {:induction false} JoinUnique(a: Commit, b: Commit)
    requires '|' !in a.hash && '|' !in a.timestamp && '|' !in a.author
    requires '|' !in b.hash && '|' !in b.timestamp && '|' !in b.author
    requires Line(a) == Line(b)
    ensures a == b
  {
    JoinFour(a.hash, a.timestamp, a.author, a.message);
    JoinFour(b.hash, b.timestamp, b.author, b.message);
    FirstField(a.hash, a.timestamp + "|" + (a.author + "|" + a.message), b.hash, b.timestamp + "|" + (b.author + "|" + b.message));
    FirstField(a.timestamp, a.author + "|" + a.message, b.timestamp, b.author + "|" + b.message);
    FirstField(a.author, a.message, b.author, b.message);
  }

  lemma JoinFour(w: string, x: string, y: string, z: string)
    ensures Text.Join([w, x, y, z], "|") == w + "|" + (x + "|" + (y + "|" + z))
  {
    assert Text.Join([z], "|") == z;
    assert [y, z][1..] == [z];
    assert Text.Join([y, z], "|") == y + "|" + z;
    assert [x, y, z][1..] == [y, z];
    assert Text.Join([x, y, z], "|") == x + "|" + (y + "|" + z);
    assert [w, x, y, z][1..] == [x, y, z];
  }

  /** A '|'-free first field is determined by the text it starts. */
  lemma {:induction false} FirstField(x: string, xs: string, y: string, ys: string)
    requires '|' !in x && '|' !in y
    requires x + "|" + xs == y + "|" + ys
    ensures x == y && xs == ys
  {
    var s := x + "|" + xs;
    assert forall i | 0 <= i < |x| :: s[i] == x[i] && s[i] != '|';
    assert forall i | 0 <= i < |y| :: s[i] == y[i] && s[i] != '|';
    assert s[|x|] == '|' && s[|y|] == '|';
    assert x == s[..|x|] && y == s[..|y|];
    assert xs == s[|x| + 1..] && ys == s[|y| + 1..];
  }
}
