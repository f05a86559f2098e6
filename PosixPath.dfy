/**
 * `os.path.basename`, `os.path.dirname` and two-argument `os.path.join` as
 * Python's `posixpath` defines them.
 */
module PosixPath {

  /** `p.rfind('/') + 1`: the index just after the last '/', or 0 when there is none. */
  function AfterLastSlash(p: string): (i: nat)
    ensures i <= |p|
    ensures forall k | i <= k < |p| :: p[k] != '/'
    ensures i == 0 || p[i - 1] == '/'
  {
    if p == [] then 0
    else if p[|p| - 1] == '/' then |p|
    else AfterLastSlash(p[..|p| - 1])
  }

  /** The two properties of AfterLastSlash pin it down. */
  lemma {:induction false} AfterLastSlashUnique(p: string, i: nat)
    requires i <= |p|
    requires forall k | i <= k < |p| :: p[k] != '/'
    requires i == 0 || p[i - 1] == '/'
    ensures AfterLastSlash(p) == i
  {
    var j := AfterLastSlash(p);
    // Each of the two slashes bounds the other index.
    if 0 < i {
      assert p[i - 1] == '/';
    }
    if 0 < j {
      assert p[j - 1] == '/';
    }
  }

  predicate AllSlashes(s: string) {
    forall k | 0 <= k < |s| :: s[k] == '/'
  }

  /** `s.rstrip('/')`. */
  function TrimSlashes(s: string): (r: string)
    ensures |r| <= |s| && r == s[..|r|]
    ensures forall k | |r| <= k < |s| :: s[k] == '/'
    ensures r == [] || r[|r| - 1] != '/'
  {
    if s != [] && s[|s| - 1] == '/' then TrimSlashes(s[..|s| - 1]) else s
  }

  /** `os.path.basename(p)`: the final component, which holds no '/'. */
  function Basename(p: string): (r: string)
    ensures '/' !in r
    ensures |r| <= |p| && r == p[|p| - |r|..]
    ensures |r| == |p| || p[|p| - |r| - 1] == '/'
  {
    p[AfterLastSlash(p)..]
  }

  /**
   * `os.path.dirname(p)`: the text before the final component, without its
   * trailing slashes unless it consists of slashes only (the root).
   */
  function Dirname(p: string): (r: string)
    ensures |r| <= |p| - |Basename(p)| && r == p[..|r|]
    ensures forall k | |r| <= k < |p| - |Basename(p)| :: p[k] == '/'
    ensures r == [] || r[|r| - 1] != '/' || AllSlashes(r)
    ensures '/' !in p ==> r == []
    ensures AllSlashes(p[..AfterLastSlash(p)]) ==> r == p[..AfterLastSlash(p)]
  {
    var head := p[..AfterLastSlash(p)];
    if head != [] && !AllSlashes(head) then TrimSlashes(head) else head
  }

  /** `os.path.join(a, b)`. */
  function Join(a: string, b: string): (r: string)
    ensures b != [] && b[0] == '/' ==> r == b
    ensures |b| <= |r| && r[|r| - |b|..] == b
    ensures |r| == |b| || r[|r| - |b| - 1] == '/'
    ensures (b == [] || b[0] != '/') && (a == [] || a[|a| - 1] == '/') ==> r == a + b
    ensures (b == [] || b[0] != '/') && a != [] && a[|a| - 1] != '/' ==> r == a + "/" + b
  {
    if b != [] && b[0] == '/' then b
    else if a == [] || a[|a| - 1] == '/' then a + b
    else a + "/" + b
  }

  /** A suffix that starts just after a '/', or the whole path, has the same base name. */
  lemma {:induction false} BasenameOfSuffix(r: string, b: string, n: nat)
    requires n <= |r| && r[n..] == b
    requires n == 0 || r[n - 1] == '/'
    ensures Basename(r) == Basename(b)
  {
    var i := AfterLastSlash(b);
    forall k | n + i <= k < |r| ensures r[k] != '/' {
      assert r[k] == r[n..][k - n];
    }
    if i > 0 {
      assert r[n + i - 1] == r[n..][i - 1];
    }
    AfterLastSlashUnique(r, n + i);
    assert r[n + i..] == r[n..][i..];
  }

  /** Joining a directory and a name gives back the name as the base name. */
  lemma {:induction false} BasenameOfJoin(a: string, b: string)
    ensures Basename(Join(a, b)) == Basename(b)
  {
    var r := Join(a, b);
    BasenameOfSuffix(r, b, |r| - |b|);
  }

  /** The name joined onto a directory that ends in no '/' has that directory as its dirname. */
  lemma {:induction false} DirnameOfJoin(a: string, b: string)
    requires a != [] && a[|a| - 1] != '/' && b != [] && '/' !in b
    ensures Dirname(Join(a, b)) == a
  {
    var r := Join(a, b);
    assert r == a + "/" + b;
    assert AfterLastSlash(r) == |a| + 1;
    assert r[..|a| + 1] == a + "/";
    assert !AllSlashes(a + "/") by { assert (a + "/")[|a| - 1] == a[|a| - 1]; }
    assert (a + "/")[..|a|] == a;
  }

  /** A name directly under the root has the root as its dirname. */
  lemma DirnameOfRootEntry()
    ensures Dirname("/x") == "/"
  {
    AfterLastSlashUnique("/x", 1);
  }
}
