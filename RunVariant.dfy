/**
 * The older synchroniser variant in `run.py`. Its add_commit, add_file and
 * add_reference update the graph exactly as the `main.py` helpers do (the
 * Construction members). What differs: each log line is split at its first
 * three '|' only and a line with fewer aborts the run; after the log, the
 * repository's files are walked, every `.zig` file is linked by "modifies"
 * from the last commit of the log and its imports are recorded with
 * add_reference; `/commits` is answered from the in-memory graph.
 */
module RunVariant {
  import opened Wrappers
  import opened GraphModel
  import Construction
  import CommitLog
  import ImportScan
  import PosixPath
  import Text

  const ZIG_SUFFIX: string := ".zig"

  // ---------------------------------------------------------------- analyze_zig_file

  /** The nodes an import loop touches: the file and its imports, or nothing when there is no import. */
  function Touched(path: NodeId, imports: set<NodeId>): set<NodeId> {
    if imports == {} then {} else imports + {path}
  }

  /** The nodes the loop creates: every touched id not yet in the graph, typed "file". */
  function CreatedFiles(nodes: map<NodeId, Attrs>, touched: set<NodeId>): map<NodeId, Attrs> {
    map n | n in touched && n !in nodes :: Construction.TypeAttrs(FILE)
  }

  /** The labels the loop writes: "references" on each pair (path, imp). */
  function ReferenceLabels(path: NodeId, imports: set<NodeId>): map<(NodeId, NodeId), string> {
    map e | e in Construction.ReferencePairs(path, imports) :: REFERENCES
  }

  /**
   * The effect of add_reference(path, imp) for every imp in `imports`: the
   * file and each import are created, typed "file", only when absent, and
   * each pair (path, imp) is labelled "references".
   */
  function ReferencesAdded(g: GraphValue, path: NodeId, imports: set<NodeId>): (r: GraphValue)
    ensures r.nodes.Keys == g.nodes.Keys + Touched(path, imports)
    ensures r.edges.Keys == g.edges.Keys + Construction.ReferencePairs(path, imports)
  {
    GraphValue(g.nodes + CreatedFiles(g.nodes, Touched(path, imports)), g.edges + ReferenceLabels(path, imports))
  }

  /**
   * Existing nodes keep their attributes, created ones are typed "file",
   * each pair (path, imp) is labelled "references" and every other edge
   * keeps its label.
   */
  lemma ReferencesAddedEffect(g: GraphValue, path: NodeId, imports: set<NodeId>)
    ensures var r := ReferencesAdded(g, path, imports);
      && (forall n | n in g.nodes :: r.nodes[n] == g.nodes[n])
      && (forall n | n in r.nodes && n !in g.nodes :: r.nodes[n] == Construction.TypeAttrs(FILE))
      && (forall imp | imp in imports :: (path, imp) in r.edges && r.edges[(path, imp)] == REFERENCES)
      && (forall e | e in g.edges && e !in Construction.ReferencePairs(path, imports) :: r.edges[e] == g.edges[e])
  {
    assert forall imp | imp in imports :: (path, imp) in Construction.ReferencePairs(path, imports);
  }

  lemma CreatedFilesStep(nodes: map<NodeId, Attrs>, touched: set<NodeId>, more: set<NodeId>)
    ensures nodes + CreatedFiles(nodes, touched + more)
         == (nodes + CreatedFiles(nodes, touched)) + CreatedFiles(nodes + CreatedFiles(nodes, touched), more)
  {
  }

  lemma ReferenceLabelsStep(path: NodeId, done: set<NodeId>, imp: NodeId)
    ensures ReferenceLabels(path, done + {imp}) == ReferenceLabels(path, done)[(path, imp) := REFERENCES]
  {
    assert Construction.ReferencePairs(path, done + {imp}) == Construction.ReferencePairs(path, done) + {(path, imp)};
  }

  /** add_reference as the same two updates, for one import. */
  lemma ReferenceAddedIsCreateAndLabel(g: GraphValue, path: NodeId, imp: NodeId)
    ensures Construction.ReferenceAdded(g, path, imp)
         == GraphValue(g.nodes + CreatedFiles(g.nodes, {path, imp}), g.edges[(path, imp) := REFERENCES])
  {
  }

  lemma ReferencesAddedNodesStep(g: GraphValue, path: NodeId, done: set<NodeId>, imp: NodeId)
    ensures ReferencesAdded(g, path, done + {imp}).nodes == Construction.ReferenceAdded(ReferencesAdded(g, path, done), path, imp).nodes
  {
    var mid := ReferencesAdded(g, path, done);
    var touched := Touched(path, done);
    assert mid.nodes == g.nodes + CreatedFiles(g.nodes, touched);
    ReferenceAddedIsCreateAndLabel(mid, path, imp);
    assert Touched(path, done + {imp}) == touched + {path, imp};
    CreatedFilesStep(g.nodes, touched, {path, imp});
  }

  lemma ReferencesAddedEdgesStep(g: GraphValue, path: NodeId, done: set<NodeId>, imp: NodeId)
    ensures ReferencesAdded(g, path, done + {imp}).edges == Construction.ReferenceAdded(ReferencesAdded(g, path, done), path, imp).edges
  {
    var mid := ReferencesAdded(g, path, done);
    assert mid.edges == g.edges + ReferenceLabels(path, done);
    ReferenceLabelsStep(path, done, imp);
    assert ReferencesAdded(g, path, done + {imp}).edges == g.edges + ReferenceLabels(path, done)[(path, imp) := REFERENCES];
    UnionUpdate(g.edges, ReferenceLabels(path, done), (path, imp), REFERENCES);
  }

  /** With no import, nothing changes. */
  lemma ReferencesAddedNone(g: GraphValue, path: NodeId)
    ensures ReferencesAdded(g, path, {}) == g
  {
    assert CreatedFiles(g.nodes, Touched(path, {})) == map[];
    assert ReferenceLabels(path, {}) == map[];
  }

  /**
   * Adding the imports one add_reference at a time, in any order, builds
   * ReferencesAdded: the set iteration order of the source does not matter.
   */
  lemma ReferencesAddedStep(g: GraphValue, path: NodeId, done: set<NodeId>, imp: NodeId)
    ensures ReferencesAdded(g, path, done + {imp}) == Construction.ReferenceAdded(ReferencesAdded(g, path, done), path, imp)
  {
    ReferencesAddedNodesStep(g, path, done, imp);
    ReferencesAddedEdgesStep(g, path, done, imp);
  }

  /**
   * Where the file and its imports are all new, this variant and the one in
   * `main.py` leave the same graph.
   */
  lemma ReferencesAgreeOnNewNodes(g: GraphValue, path: NodeId, imports: set<NodeId>)
    requires forall n | n in Touched(path, imports) :: n !in g.nodes
    ensures ReferencesAdded(g, path, imports) == Construction.ImportsRecorded(g, path, imports)
  {
    if imports != {} {
      var touched := imports + {path};
      forall n | n in touched ensures Construction.Prior(g, n) + Construction.TypeAttrs(FILE) == Construction.TypeAttrs(FILE) {
        assert Construction.Prior(g, n) == map[];
      }
      assert Construction.RetypedNodes(g, path, imports) == g.nodes + CreatedFiles(g.nodes, touched);
    }
  }

  /**
   * analyze_zig_file: an unreadable file (None) leaves the graph unchanged;
   * otherwise add_reference runs for each distinct imported name.
   */
  method AnalyzeZigFile(g: Graph, path: NodeId, content: Option<string>)
    modifies g
    ensures content.None? ==> g.Value() == old(g.Value())
    ensures content.Some? ==> g.Value() == ReferencesAdded(old(g.Value()), path, ImportScan.Imports(content.value))
  {
    if content.Some? {
      var imports := ImportScan.Imports(content.value);
      ghost var g0 := g.Value();
      ReferencesAddedNone(g0, path);
      var todo := imports;
      while todo != {}
        invariant todo <= imports
        invariant g.Value() == ReferencesAdded(g0, path, imports - todo)
        decreases todo
      {
        var imp :| imp in todo;
        ReferencesAddedStep(g0, path, imports - todo, imp);
        Construction.AddReference(g, path, imp);
        assert imports - (todo - {imp}) == (imports - todo) + {imp};
        todo := todo - {imp};
      }
      assert imports - todo == imports;
    }
  }

  // ---------------------------------------------------------------- the log

  /** Every line has at least three '|', so that it unpacks into four fields. */
  predicate WellFormed(lines: seq<string>) {
    forall i | 0 <= i < |lines| :: Text.Count(lines[i], '|') >= 3
  }

  /** The index of the first line that does not unpack, if any. */
  function FirstMalformed(lines: seq<string>): (r: Option<nat>)
    ensures r.None? <==> WellFormed(lines)
    ensures r.Some? ==> r.value < |lines| && Text.Count(lines[r.value], '|') < 3 && WellFormed(lines[..r.value])
  {
    if lines == [] then None
    else
      var init := lines[..|lines| - 1];
      assert forall i | 0 <= i < |init| :: init[i] == lines[i];
      match FirstMalformed(init)
      case Some(k) => assert lines[..k] == init[..k]; Some(k)
      case None => if Text.Count(lines[|lines| - 1], '|') < 3 then Some(|lines| - 1) else None
  }

  /** The commits of a well-formed log, one per line, each line split at its first three '|'. */
  function RunCommits(lines: seq<string>): (cs: seq<CommitLog.Commit>)
    requires WellFormed(lines)
    ensures |cs| == |lines|
    ensures forall i | 0 <= i < |lines| :: CommitLog.ParseFirstThree(lines[i]) == Success(cs[i])
  {
    if lines == [] then []
    else
      var init := lines[..|lines| - 1];
      assert forall i | 0 <= i < |init| :: init[i] == lines[i];
      RunCommits(init) + [CommitLog.ParseFirstThree(lines[|lines| - 1]).value]
  }

  // ---------------------------------------------------------------- the file walk

  /** A file name os.walk reports, with what reading it gives (None: it cannot be read as UTF-8 text). */
  datatype FileEntry = FileEntry(name: string, content: Option<string>)

  /** One (root, dirs, files) triple of os.walk; the sub-directory names are not used. */
  datatype WalkStep = WalkStep(root: string, files: seq<FileEntry>)

  /** A selected file: its joined path and its contents. */
  datatype ZigFile = ZigFile(path: string, content: Option<string>)

  function ZigFileOf(root: string, f: FileEntry): ZigFile {
    ZigFile(PosixPath.Join(root, f.name), f.content)
  }

  /** The `.zig` files of one directory, in listing order. */
  function StepZigs(root: string, files: seq<FileEntry>): (zs: seq<ZigFile>)
    ensures forall z | z in zs :: Text.EndsWith(z.path, ZIG_SUFFIX)
    ensures forall j | 0 <= j < |files| && Text.EndsWith(files[j].name, ZIG_SUFFIX) :: ZigFileOf(root, files[j]) in zs
  {
    if files == [] then []
    else
      var init := files[..|files| - 1];
      var f := files[|files| - 1];
      var rest := StepZigs(root, init);
      var zs := if Text.EndsWith(f.name, ZIG_SUFFIX) then rest + [ZigFileOf(root, f)] else rest;
      assert forall z | z in zs :: Text.EndsWith(z.path, ZIG_SUFFIX) by {
        if Text.EndsWith(f.name, ZIG_SUFFIX) {
          Text.EndsWithTrans(PosixPath.Join(root, f.name), f.name, ZIG_SUFFIX);
        }
      }
      assert forall j | 0 <= j < |files| && Text.EndsWith(files[j].name, ZIG_SUFFIX) :: ZigFileOf(root, files[j]) in zs by {
        forall j | 0 <= j < |files| && Text.EndsWith(files[j].name, ZIG_SUFFIX) ensures ZigFileOf(root, files[j]) in zs {
          if j < |init| {
            assert init[j] == files[j];
          }
        }
      }
      zs
  }

  /** Every file StepZigs selects is the joined path of a `.zig` entry of that listing. */
  lemma {:induction false} StepZigsFromEntries(root: string, files: seq<FileEntry>)
    ensures forall z | z in StepZigs(root, files) ::
              exists j | 0 <= j < |files| :: Text.EndsWith(files[j].name, ZIG_SUFFIX) && z == ZigFileOf(root, files[j])
  {
    if files != [] {
      var init := files[..|files| - 1];
      StepZigsFromEntries(root, init);
      forall z | z in StepZigs(root, files)
        ensures exists j | 0 <= j < |files| :: Text.EndsWith(files[j].name, ZIG_SUFFIX) && z == ZigFileOf(root, files[j])
      {
        if z in StepZigs(root, init) {
          var j :| 0 <= j < |init| && Text.EndsWith(init[j].name, ZIG_SUFFIX) && z == ZigFileOf(root, init[j]);
          assert files[j] == init[j];
        } else {
          assert Text.EndsWith(files[|files| - 1].name, ZIG_SUFFIX) && z == ZigFileOf(root, files[|files| - 1]);
        }
      }
    }
  }

  /** The `.zig` files of the whole walk, in walk order. */
  function ZigFiles(walk: seq<WalkStep>): (zs: seq<ZigFile>)
    ensures forall z | z in zs :: Text.EndsWith(z.path, ZIG_SUFFIX)
    ensures forall i, j | 0 <= i < |walk| && 0 <= j < |walk[i].files| && Text.EndsWith(walk[i].files[j].name, ZIG_SUFFIX) ::
              ZigFileOf(walk[i].root, walk[i].files[j]) in zs
  {
    if walk == [] then []
    else
      var init := walk[..|walk| - 1];
      assert forall i | 0 <= i < |init| :: init[i] == walk[i];
      ZigFiles(init) + StepZigs(walk[|walk| - 1].root, walk[|walk| - 1].files)
  }

  /** Every file ZigFiles selects is a `.zig` entry of one of the walk's directories, joined to its root. */
  lemma {:induction false} ZigFilesFromEntries(walk: seq<WalkStep>)
    ensures forall z | z in ZigFiles(walk) ::
              exists i, j | 0 <= i < |walk| && 0 <= j < |walk[i].files| ::
                Text.EndsWith(walk[i].files[j].name, ZIG_SUFFIX) && z == ZigFileOf(walk[i].root, walk[i].files[j])
  {
    if walk != [] {
      var init := walk[..|walk| - 1];
      var w := walk[|walk| - 1];
      ZigFilesFromEntries(init);
      StepZigsFromEntries(w.root, w.files);
      forall z | z in ZigFiles(walk)
        ensures exists i, j | 0 <= i < |walk| && 0 <= j < |walk[i].files| ::
                  Text.EndsWith(walk[i].files[j].name, ZIG_SUFFIX) && z == ZigFileOf(walk[i].root, walk[i].files[j])
      {
        if z in ZigFiles(init) {
          var i, j :| 0 <= i < |init| && 0 <= j < |init[i].files| &&
                      Text.EndsWith(init[i].files[j].name, ZIG_SUFFIX) && z == ZigFileOf(init[i].root, init[i].files[j]);
          assert walk[i] == init[i];
        } else {
          assert z in StepZigs(w.root, w.files);
          var j :| 0 <= j < |w.files| && Text.EndsWith(w.files[j].name, ZIG_SUFFIX) && z == ZigFileOf(w.root, w.files[j]);
          assert walk[|walk| - 1] == w;
        }
      }
    }
  }

  /** add_file then analyze_zig_file for each selected file in turn, linked from `commit`. */
  function ZigFilesApplied(g: GraphValue, commit: NodeId, zs: seq<ZigFile>): GraphValue {
    if zs == [] then g
    else
      var z := zs[|zs| - 1];
      var withFile := Construction.FileAdded(ZigFilesApplied(g, commit, zs[..|zs| - 1]), z.path, commit);
      if z.content.Some? then ReferencesAdded(withFile, z.path, ImportScan.Imports(z.content.value)) else withFile
  }

  /**
   * Every selected file is a node linked by "modifies" from the commit,
   * provided no selected path is the commit's hash itself.
   */
  lemma {:induction false} ZigFilesLinked(g: GraphValue, commit: NodeId, zs: seq<ZigFile>)
    requires forall z | z in zs :: z.path != commit
    ensures forall z | z in zs :: z.path in ZigFilesApplied(g, commit, zs).nodes
    ensures forall z | z in zs :: (commit, z.path) in ZigFilesApplied(g, commit, zs).edges
    ensures forall z | z in zs :: ZigFilesApplied(g, commit, zs).edges[(commit, z.path)] == MODIFIES
  {
    if zs != [] {
      var init := zs[..|zs| - 1];
      var z := zs[|zs| - 1];
      assert forall y | y in zs :: y in init || y == z;
      ZigFilesLinked(g, commit, init);
      var withFile := Construction.FileAdded(ZigFilesApplied(g, commit, init), z.path, commit);
      if z.content.Some? {
        var imports := ImportScan.Imports(z.content.value);
        forall y | y in zs ensures (commit, y.path) !in Construction.ReferencePairs(z.path, imports) {
        }
      }
    }
  }

  /** Files and commits aside, the walk adds nodes and edges and removes none. */
  lemma {:induction false} ZigFilesKeep(g: GraphValue, commit: NodeId, zs: seq<ZigFile>)
    ensures g.nodes.Keys <= ZigFilesApplied(g, commit, zs).nodes.Keys
    ensures forall n | n in g.nodes :: ZigFilesApplied(g, commit, zs).nodes[n] == g.nodes[n]
    ensures g.edges.Keys <= ZigFilesApplied(g, commit, zs).edges.Keys
  {
    if zs != [] {
      ZigFilesKeep(g, commit, zs[..|zs| - 1]);
    }
  }

  // ---------------------------------------------------------------- process_repository

  /** How a run of process_repository ends. */
  datatype RunOutcome =
    | Completed
      /** Unpacking the split line at this index raised. */
    | MalformedLine(index: nat)
      /** A `.zig` file was found but the log was empty, so there is no commit hash to link it from. */
    | NoCommitHash

  /**
   * process_repository on a log (None: the git call failed, read as an empty
   * log) and a directory walk: the graph it leaves and how it ends.
   */
  function RunResult(g: GraphValue, log: Option<seq<string>>, walk: seq<WalkStep>): (GraphValue, RunOutcome) {
    var lines := log.GetOr([]);
    match FirstMalformed(lines)
    case Some(i) => (Construction.CommitsApplied(g, RunCommits(lines[..i])), MalformedLine(i))
    case None =>
      var afterLog := Construction.CommitsApplied(g, RunCommits(lines));
      if lines == [] then
        (afterLog, if ZigFiles(walk) == [] then Completed else NoCommitHash)
      else
        (ZigFilesApplied(afterLog, RunCommits(lines)[|lines| - 1].hash, ZigFiles(walk)), Completed)
  }

  /**
   * How a run ends: it completes exactly when every line unpacks and there is
   * a commit hash for the `.zig` files, if any; it stops at the first line
   * that does not unpack with the commits before it added; and it raises
   * before changing anything when `.zig` files meet an empty log.
   */
  lemma RunOutcomes(g: GraphValue, log: Option<seq<string>>, walk: seq<WalkStep>)
    ensures var r := RunResult(g, log, walk);
      && (r.1 == Completed <==> WellFormed(log.GetOr([])) && (log.GetOr([]) != [] || ZigFiles(walk) == []))
      && (r.1 == NoCommitHash <==> log.GetOr([]) == [] && ZigFiles(walk) != [])
      && (r.1.MalformedLine? ==> FirstMalformed(log.GetOr([])) == Some(r.1.index))
      && (r.1.MalformedLine? ==> r.0 == Construction.CommitsApplied(g, RunCommits(log.GetOr([])[..r.1.index])))
      && (r.1 == NoCommitHash ==> r.0 == g)
  {
    if log.GetOr([]) == [] {
      assert WellFormed([]);
    }
  }

  /**
   * After a completed run over a non-empty log, every `.zig` file of the walk
   * is a node linked by "modifies" from the last commit of the log (as long
   * as no file path equals that hash), and every commit of the log is a node.
   */
  lemma RunLinksZigFiles(g: GraphValue, lines: seq<string>, walk: seq<WalkStep>)
    requires RunResult(g, Some(lines), walk).1 == Completed
    requires lines != []
    requires forall z | z in ZigFiles(walk) :: z.path != RunCommits(lines)[|lines| - 1].hash
    ensures forall z | z in ZigFiles(walk) ::
              (RunCommits(lines)[|lines| - 1].hash, z.path) in RunResult(g, Some(lines), walk).0.edges
              && RunResult(g, Some(lines), walk).0.edges[(RunCommits(lines)[|lines| - 1].hash, z.path)] == MODIFIES
  {
    RunOutcomes(g, Some(lines), walk);
    RunCompletes(g, lines, walk);
    ZigFilesLinked(Construction.CommitsApplied(g, RunCommits(lines)), RunCommits(lines)[|lines| - 1].hash, ZigFiles(walk));
  }

  /** A well-formed, non-empty log: the commits, then the `.zig` files linked from the last one. */
  lemma RunCompletes(g: GraphValue, lines: seq<string>, walk: seq<WalkStep>)
    requires WellFormed(lines) && lines != []
    ensures RunResult(g, Some(lines), walk)
         == (ZigFilesApplied(Construction.CommitsApplied(g, RunCommits(lines)), RunCommits(lines)[|lines| - 1].hash, ZigFiles(walk)), Completed)
  {
    assert FirstMalformed(lines) == None;
  }

  /** With no `.zig` file in the walk, a well-formed log is all a run adds. */
  lemma RunWithoutZigFiles(g: GraphValue, lines: seq<string>, walk: seq<WalkStep>)
    requires WellFormed(lines)
    requires forall i, j | 0 <= i < |walk| && 0 <= j < |walk[i].files| :: !Text.EndsWith(walk[i].files[j].name, ZIG_SUFFIX)
    ensures RunResult(g, Some(lines), walk) == (Construction.CommitsApplied(g, RunCommits(lines)), Completed)
  {
    assert ZigFiles(walk) == [] by {
      if ZigFiles(walk) != [] {
        assert ZigFiles(walk)[0] in ZigFiles(walk);
        ZigFilesNonEmpty(walk);
      }
    }
  }

  /** A non-empty selection has a `.zig` file behind it. */
  lemma {:induction false} ZigFilesNonEmpty(walk: seq<WalkStep>)
    requires ZigFiles(walk) != []
    ensures exists i, j | 0 <= i < |walk| && 0 <= j < |walk[i].files| :: Text.EndsWith(walk[i].files[j].name, ZIG_SUFFIX)
  {
    var init := walk[..|walk| - 1];
    var last := walk[|walk| - 1];
    if ZigFiles(init) != [] {
      ZigFilesNonEmpty(init);
      var i, j :| 0 <= i < |init| && 0 <= j < |init[i].files| && Text.EndsWith(init[i].files[j].name, ZIG_SUFFIX);
      assert walk[i] == init[i];
    } else {
      var j := StepZigsNonEmpty(last.root, last.files);
      assert walk[|walk| - 1] == last;
    }
  }

  /** A non-empty selection in one directory has a `.zig` file behind it. */
  lemma {:induction false} StepZigsNonEmpty(root: string, files: seq<FileEntry>) returns (j: nat)
    requires StepZigs(root, files) != []
    ensures j < |files| && Text.EndsWith(files[j].name, ZIG_SUFFIX)
  {
    var init := files[..|files| - 1];
    if Text.EndsWith(files[|files| - 1].name, ZIG_SUFFIX) {
      j := |files| - 1;
    } else {
      j := StepZigsNonEmpty(root, init);
      assert files[j] == init[j];
    }
  }

  lemma RunCommitsStep(lines: seq<string>, i: nat)
    requires i < |lines| && WellFormed(lines[..i]) && Text.Count(lines[i], '|') >= 3
    ensures WellFormed(lines[..i + 1])
    ensures RunCommits(lines[..i + 1]) == RunCommits(lines[..i]) + [CommitLog.ParseFirstThree(lines[i]).value]
  {
    assert lines[..i + 1][..i] == lines[..i];
  }

  lemma FirstMalformedAt(lines: seq<string>, i: nat)
    requires i < |lines| && WellFormed(lines[..i]) && Text.Count(lines[i], '|') < 3
    ensures FirstMalformed(lines) == Some(i)
  {
    var r := FirstMalformed(lines);
    assert r.Some?;
    assert forall k | 0 <= k < i :: lines[..i][k] == lines[k];
    assert forall k | 0 <= k < r.value :: lines[..r.value][k] == lines[k];
  }

  /**
   * The log loop of process_repository: add_commit for each line, split at
   * its first three '|', stopping at the first line that does not unpack;
   * `hash` is the hash of the last line.
   */
  method ProcessLog(g: Graph, lines: seq<string>) returns (malformed: Option<nat>, hash: Option<string>)
    modifies g
    ensures malformed == FirstMalformed(lines)
    ensures malformed.Some? ==> g.Value() == Construction.CommitsApplied(old(g.Value()), RunCommits(lines[..malformed.value]))
    ensures malformed.None? ==> g.Value() == Construction.CommitsApplied(old(g.Value()), RunCommits(lines))
    ensures malformed.None? ==> hash == if lines == [] then None else Some(RunCommits(lines)[|lines| - 1].hash)
  {
    ghost var g0 := g.Value();
    hash := None;
    for i := 0 to |lines|
      invariant WellFormed(lines[..i])
      invariant g.Value() == Construction.CommitsApplied(g0, RunCommits(lines[..i]))
      invariant hash == if i == 0 then None else Some(RunCommits(lines[..i])[i - 1].hash)
    {
      match CommitLog.ParseFirstThree(lines[i])
      case Failure(_) =>
        FirstMalformedAt(lines, i);
        return Some(i), hash;
      case Success(c) =>
        RunCommitsStep(lines, i);
        Construction.AddCommit(g, c.hash, c.timestamp, c.author, c.message);
        hash := Some(c.hash);
    }
    assert lines[..|lines|] == lines;
    malformed := None;
  }

  lemma ZigFilesAppliedStep(g: GraphValue, commit: NodeId, done: seq<ZigFile>, z: ZigFile)
    ensures ZigFilesApplied(g, commit, done + [z])
         == (var withFile := Construction.FileAdded(ZigFilesApplied(g, commit, done), z.path, commit);
             if z.content.Some? then ReferencesAdded(withFile, z.path, ImportScan.Imports(z.content.value)) else withFile)
  {
    assert (done + [z])[..|done|] == done;
  }

  lemma ZigFilesStep(walk: seq<WalkStep>, i: nat)
    requires i < |walk|
    ensures ZigFiles(walk[..i + 1]) == ZigFiles(walk[..i]) + StepZigs(walk[i].root, walk[i].files)
  {
    assert walk[..i + 1][..i] == walk[..i];
  }

  lemma StepZigsStep(root: string, files: seq<FileEntry>, j: nat)
    requires j < |files|
    ensures StepZigs(root, files[..j + 1])
         == StepZigs(root, files[..j]) + if Text.EndsWith(files[j].name, ZIG_SUFFIX) then [ZigFileOf(root, files[j])] else []
  {
    assert files[..j + 1][..j] == files[..j];
  }

  /** Applying two runs of files in turn is applying them together. */
  lemma {:induction false} ZigFilesAppliedAppend(g: GraphValue, commit: NodeId, xs: seq<ZigFile>, ys: seq<ZigFile>)
    ensures ZigFilesApplied(g, commit, xs + ys) == ZigFilesApplied(ZigFilesApplied(g, commit, xs), commit, ys)
  {
    if ys == [] {
      assert xs + ys == xs;
    } else {
      var init := ys[..|ys| - 1];
      ZigFilesAppliedAppend(g, commit, xs, init);
      assert (xs + ys)[..|xs + ys| - 1] == xs + init;
    }
  }

  /**
   * The loop over one directory's files: add_file and analyze_zig_file for
   * each `.zig` file, linked from `hash`. Without a hash, the first `.zig`
   * file stops the run (`stuck`) before anything is added.
   */
  method ProcessDirectory(g: Graph, hash: Option<string>, root: string, files: seq<FileEntry>) returns (stuck: bool)
    modifies g
    ensures stuck <==> hash.None? && StepZigs(root, files) != []
    ensures hash.None? ==> g.Value() == old(g.Value())
    ensures hash.Some? ==> g.Value() == ZigFilesApplied(old(g.Value()), hash.value, StepZigs(root, files))
  {
    ghost var g0 := g.Value();
    for j := 0 to |files|
      invariant hash.None? ==> StepZigs(root, files[..j]) == [] && g.Value() == g0
      invariant hash.Some? ==> g.Value() == ZigFilesApplied(g0, hash.value, StepZigs(root, files[..j]))
    {
      StepZigsStep(root, files, j);
      if Text.EndsWith(files[j].name, ZIG_SUFFIX) {
        var fullPath := PosixPath.Join(root, files[j].name);
        if hash.None? {
          assert ZigFileOf(root, files[j]) in StepZigs(root, files);
          return true;
        }
        ZigFilesAppliedStep(g0, hash.value, StepZigs(root, files[..j]), ZigFile(fullPath, files[j].content));
        Construction.AddFile(g, fullPath, hash.value);
        AnalyzeZigFile(g, fullPath, files[j].content);
        assert StepZigs(root, files[..j + 1]) == StepZigs(root, files[..j]) + [ZigFile(fullPath, files[j].content)];
      } else {
        assert StepZigs(root, files[..j + 1]) == StepZigs(root, files[..j]);
      }
    }
    assert files[..|files|] == files;
    stuck := false;
  }

  /**
   * The walk loop of process_repository: each directory of the walk in
   * turn, stopping when one gets stuck.
   */
  method ProcessWalk(g: Graph, hash: Option<string>, walk: seq<WalkStep>) returns (stuck: bool)
    modifies g
    ensures stuck <==> hash.None? && ZigFiles(walk) != []
    ensures hash.None? ==> g.Value() == old(g.Value())
    ensures hash.Some? ==> g.Value() == ZigFilesApplied(old(g.Value()), hash.value, ZigFiles(walk))
  {
    ghost var g0 := g.Value();
    for i := 0 to |walk|
      invariant hash.None? ==> ZigFiles(walk[..i]) == [] && g.Value() == g0
      invariant hash.Some? ==> g.Value() == ZigFilesApplied(g0, hash.value, ZigFiles(walk[..i]))
    {
      ZigFilesStep(walk, i);
      stuck := ProcessDirectory(g, hash, walk[i].root, walk[i].files);
      if stuck {
        var j := StepZigsNonEmpty(walk[i].root, walk[i].files);
        assert ZigFileOf(walk[i].root, walk[i].files[j]) in ZigFiles(walk);
        return;
      }
      if hash.Some? {
        ZigFilesAppliedAppend(g0, hash.value, ZigFiles(walk[..i]), StepZigs(walk[i].root, walk[i].files));
      }
    }
    assert walk[..|walk|] == walk;
    stuck := false;
  }

  /**
   * process_repository: the log loop, then (when every line unpacked) the
   * walk loop linked from the hash of the last line.
   */
  method ProcessRepository(g: Graph, log: Option<seq<string>>, walk: seq<WalkStep>) returns (outcome: RunOutcome)
    modifies g
    ensures (g.Value(), outcome) == RunResult(old(g.Value()), log, walk)
  {
    var lines := if log.Some? then log.value else [];
    var malformed, hash := ProcessLog(g, lines);
    if malformed.Some? {
      return MalformedLine(malformed.value);
    }
    var stuck := ProcessWalk(g, hash, walk);
    outcome := if stuck then NoCommitHash else Completed;
  }

  // ---------------------------------------------------------------- get_commits

  /** A listing of the graph's nodes, in their insertion order: each node once, every node present. */
  predicate Lists(listing: seq<(NodeId, Attrs)>, nodes: map<NodeId, Attrs>) {
    && (forall i | 0 <= i < |listing| :: listing[i].0 in nodes && nodes[listing[i].0] == listing[i].1)
    && (forall id | id in nodes :: exists i | 0 <= i < |listing| :: listing[i].0 == id)
  }

  predicate IsCommitNode(a: Attrs) {
    Get(a, NodeTypeKey) == Some(COMMIT)
  }

  /** get_commits: the attribute dictionaries of the listed nodes typed "commit", in listing order. */
  function GetCommits(listing: seq<(NodeId, Attrs)>): (r: seq<Attrs>)
    ensures |r| <= |listing|
    ensures forall a | a in r :: IsCommitNode(a) && exists i | 0 <= i < |listing| :: listing[i].1 == a
    ensures forall i | 0 <= i < |listing| && IsCommitNode(listing[i].1) :: listing[i].1 in r
  {
    if listing == [] then []
    else
      var rest := GetCommits(listing[1..]);
      assert forall i | 1 <= i < |listing| :: listing[1..][i - 1] == listing[i];
      if IsCommitNode(listing[0].1) then [listing[0].1] + rest else rest
  }

  /** The answer follows the listing node by node: two stretches give their dictionaries one after the other. */
  lemma {:induction false} GetCommitsAppend(l1: seq<(NodeId, Attrs)>, l2: seq<(NodeId, Attrs)>)
    ensures GetCommits(l1 + l2) == GetCommits(l1) + GetCommits(l2)
  {
    if l1 == [] {
      assert l1 + l2 == l2;
    } else {
      assert (l1 + l2)[0] == l1[0];
      assert (l1 + l2)[1..] == l1[1..] + l2;
      GetCommitsAppend(l1[1..], l2);
    }
  }

  /** One more node at the end adds its dictionary at the end when it is a commit node, and nothing otherwise. */
  lemma GetCommitsSnoc(listing: seq<(NodeId, Attrs)>, n: (NodeId, Attrs))
    ensures GetCommits(listing + [n]) == GetCommits(listing) + if IsCommitNode(n.1) then [n.1] else []
  {
    GetCommitsAppend(listing, [n]);
    assert [n][1..] == [];
  }

  /** Over a listing of the graph, the answer holds exactly the commit nodes' dictionaries. */
  lemma GetCommitsOfGraph(listing: seq<(NodeId, Attrs)>, nodes: map<NodeId, Attrs>, a: Attrs)
    requires Lists(listing, nodes)
    ensures a in GetCommits(listing) <==> exists id | id in nodes :: IsCommitNode(nodes[id]) && a == nodes[id]
  {
    if a in GetCommits(listing) {
      var i :| 0 <= i < |listing| && listing[i].1 == a;
      assert IsCommitNode(nodes[listing[i].0]);
    }
    if exists id | id in nodes :: IsCommitNode(nodes[id]) && a == nodes[id] {
      var id :| id in nodes && IsCommitNode(nodes[id]) && a == nodes[id];
      var i :| 0 <= i < |listing| && listing[i].0 == id;
    }
  }
}
