/**
 * The graph construction helpers of `main.py` (add_commit, add_file,
 * add_folder, add_file_to_folder, add_reference), its commit-log loop
 * (process_repository) and its Zig import analysis (analyze_zig_file).
 * Each helper is a method on the shared graph, specified by a function on
 * graph values that the lemmas below are about.
 */
module Construction {
  import opened Wrappers
  import opened GraphModel
  import PosixPath
  import ImportScan
  import CommitLog
  import Text

  /** The attributes `add_commit` writes. */
  function CommitAttrs(timestamp: string, author: string, message: string): (a: Attrs)
    ensures Complete(a)
  {
    map[NodeTypeKey := Some(COMMIT), TimestampKey := Some(timestamp), AuthorKey := Some(author), MessageKey := Some(message)]
  }

  /** The attributes of `add_node(id, node_type=t)`. */
  function TypeAttrs(t: string): Attrs {
    map[NodeTypeKey := Some(t)]
  }

  // ---------------------------------------------------------------- add_commit

  /**
   * add_commit: the node `hash` ends up with exactly the commit's four
   * attributes, whether or not it existed; nothing else changes.
   */
  function CommitAdded(g: GraphValue, hash: NodeId, timestamp: string, author: string, message: string): (r: GraphValue)
    ensures r.nodes == g.nodes[hash := CommitAttrs(timestamp, author, message)]
    ensures r.edges == g.edges
    ensures g.Valid() ==> r.Valid()
  {
    var prior := if hash in g.nodes then g.nodes[hash] else map[];
    MergeComplete(prior, CommitAttrs(timestamp, author, message));
    g.AddNode(hash, CommitAttrs(timestamp, author, message))
  }

  method AddCommit(g: Graph, hash: NodeId, timestamp: string, author: string, message: string)
    modifies g
    ensures g.Value() == CommitAdded(old(g.Value()), hash, timestamp, author, message)
  {
    g.AddNode(hash, CommitAttrs(timestamp, author, message));
  }

  // ---------------------------------------------------------------- add_file

  /**
   * add_file: the file node is created, typed "file", only when absent; the
   * commit node is created without attributes when absent; the pair
   * (commit, file) is labelled "modifies"; existing nodes keep their attributes.
   */
  function FileAdded(g: GraphValue, path: NodeId, commit: NodeId): (r: GraphValue)
    ensures r.nodes.Keys == g.nodes.Keys + {path, commit}
    ensures forall n | n in g.nodes :: r.nodes[n] == g.nodes[n]
    ensures path !in g.nodes ==> r.nodes[path] == TypeAttrs(FILE)
    ensures commit !in g.nodes && commit != path ==> r.nodes[commit] == map[]
    ensures r.edges == g.edges[(commit, path) := MODIFIES]
  {
    var g1 := if path in g.nodes then g else g.AddNode(path, TypeAttrs(FILE));
    var none: Attrs := map[];
    assert none + TypeAttrs(FILE) == TypeAttrs(FILE);
    g1.AddEdgeCreatesEndpoints(commit, path, MODIFIES);
    g1.AddEdge(commit, path, MODIFIES)
  }

  method AddFile(g: Graph, path: NodeId, commit: NodeId)
    modifies g
    ensures g.Value() == FileAdded(old(g.Value()), path, commit)
  {
    if !g.Has(path) {
      g.AddNode(path, TypeAttrs(FILE));
    }
    g.AddEdge(commit, path, MODIFIES);
  }

  lemma FileAddedIdempotent(g: GraphValue, path: NodeId, commit: NodeId)
    ensures FileAdded(FileAdded(g, path, commit), path, commit) == FileAdded(g, path, commit)
  {
  }

  // ---------------------------------------------------------------- add_folder

  /** add_folder: creates the folder node, typed "folder", only when absent. */
  function FolderAdded(g: GraphValue, folder: NodeId): (r: GraphValue)
    ensures r.nodes.Keys == g.nodes.Keys + {folder}
    ensures forall n | n in g.nodes :: r.nodes[n] == g.nodes[n]
    ensures folder !in g.nodes ==> r.nodes[folder] == TypeAttrs(FOLDER)
    ensures r.edges == g.edges
  {
    var none: Attrs := map[];
    assert none + TypeAttrs(FOLDER) == TypeAttrs(FOLDER);
    if folder in g.nodes then g else g.AddNode(folder, TypeAttrs(FOLDER))
  }

  method AddFolder(g: Graph, folder: NodeId)
    modifies g
    ensures g.Value() == FolderAdded(old(g.Value()), folder)
  {
    if !g.Has(folder) {
      g.AddNode(folder, TypeAttrs(FOLDER));
    }
  }

  // ---------------------------------------------------------------- add_file_to_folder

  /**
   * add_file_to_folder: the parent directory `dirname(file)` becomes a folder
   * node when absent, and the pair (dirname(file), file) is labelled
   * "contains". A file node this creates carries no attributes at all.
   */
  function FiledInFolder(g: GraphValue, file: NodeId): (r: GraphValue)
    ensures r.nodes.Keys == g.nodes.Keys + {PosixPath.Dirname(file), file}
    ensures forall n | n in g.nodes :: r.nodes[n] == g.nodes[n]
    ensures PosixPath.Dirname(file) !in g.nodes ==> r.nodes[PosixPath.Dirname(file)] == TypeAttrs(FOLDER)
    ensures file !in g.nodes && file != PosixPath.Dirname(file) ==> r.nodes[file] == map[]
    ensures r.edges == g.edges[(PosixPath.Dirname(file), file) := CONTAINS]
  {
    var folder := PosixPath.Dirname(file);
    FolderAdded(g, folder).AddEdgeCreatesEndpoints(folder, file, CONTAINS);
    FolderAdded(g, folder).AddEdge(folder, file, CONTAINS)
  }

  method AddFileToFolder(g: Graph, file: NodeId)
    modifies g
    ensures g.Value() == FiledInFolder(old(g.Value()), file)
  {
    var folder := PosixPath.Dirname(file);
    AddFolder(g, folder);
    g.AddEdge(folder, file, CONTAINS);
  }

  // ---------------------------------------------------------------- add_reference

  /**
   * add_reference: both ends are created, typed "file", only when absent, and
   * the pair (src, dest) is labelled "references".
   */
  function ReferenceAdded(g: GraphValue, src: NodeId, dest: NodeId): (r: GraphValue)
    ensures r.nodes.Keys == g.nodes.Keys + {src, dest}
    ensures forall n | n in g.nodes :: r.nodes[n] == g.nodes[n]
    ensures forall n | n in r.nodes && n !in g.nodes :: r.nodes[n] == TypeAttrs(FILE)
    ensures r.edges == g.edges[(src, dest) := REFERENCES]
  {
    var g1 := if src in g.nodes then g else g.AddNode(src, TypeAttrs(FILE));
    var g2 := if dest in g1.nodes then g1 else g1.AddNode(dest, TypeAttrs(FILE));
    var none: Attrs := map[];
    assert none + TypeAttrs(FILE) == TypeAttrs(FILE);
    assert g2.nodes.Keys == g.nodes.Keys + {src, dest};
    assert forall n | n in g2.nodes && n !in g.nodes :: g2.nodes[n] == TypeAttrs(FILE);
    var r := g2.AddEdge(src, dest, REFERENCES);
    assert r.nodes == g2.nodes;
    r
  }

  method AddReference(g: Graph, src: NodeId, dest: NodeId)
    modifies g
    ensures g.Value() == ReferenceAdded(old(g.Value()), src, dest)
  {
    if !g.Has(src) {
      g.AddNode(src, TypeAttrs(FILE));
    }
    if !g.Has(dest) {
      g.AddNode(dest, TypeAttrs(FILE));
    }
    g.AddEdge(src, dest, REFERENCES);
  }

  /** Every helper keeps the graph valid: each edge it labels has both ends as nodes. */
  lemma HelpersKeepValid(g: GraphValue, a: NodeId, b: NodeId)
    requires g.Valid()
    ensures FileAdded(g, a, b).Valid()
    ensures FolderAdded(g, a).Valid()
    ensures FiledInFolder(g, a).Valid()
    ensures ReferenceAdded(g, a, b).Valid()
  {
  }

  // ---------------------------------------------------------------- process_repository

  /**
   * The commits the log loop adds, in log order: one per line that splits
   * into exactly four '|'-fields; any other line is skipped.
   */
  function LogCommits(lines: seq<string>): (cs: seq<CommitLog.Commit>)
    ensures |cs| <= |lines|
    ensures forall c | c in cs :: CommitLog.NoBar(c) && CommitLog.Line(c) in lines
    ensures forall line | line in lines && CommitLog.ParseExact(line).Some? :: CommitLog.ParseExact(line).value in cs
  {
    if lines == [] then []
    else
      var init := LogCommits(lines[..|lines| - 1]);
      var last := lines[|lines| - 1];
      assert lines == lines[..|lines| - 1] + [last];
      match CommitLog.ParseExact(last)
      case Some(c) => init + [c]
      case None => init
  }

  /** The log loop works line by line: the commits of two stretches of log follow each other in log order. */
  lemma {:induction false} LogCommitsAppend(xs: seq<string>, ys: seq<string>)
    ensures LogCommits(xs + ys) == LogCommits(xs) + LogCommits(ys)
  {
    if ys == [] {
      assert xs + ys == xs;
    } else {
      var init := ys[..|ys| - 1];
      assert (xs + ys)[..|xs + ys| - 1] == xs + init;
      assert (xs + ys)[|xs + ys| - 1] == ys[|ys| - 1];
      LogCommitsAppend(xs, init);
    }
  }

  /** A log of one line gives its commit when the line splits into four fields, and nothing otherwise. */
  lemma LogCommitsOfLine(line: string)
    ensures LogCommits([line]) == if CommitLog.ParseExact(line).Some? then [CommitLog.ParseExact(line).value] else []
  {
    assert [line][..0] == [];
  }

  /** add_commit applied to each commit in turn. */
  function CommitsApplied(g: GraphValue, cs: seq<CommitLog.Commit>): GraphValue {
    if cs == [] then g
    else
      var c := cs[|cs| - 1];
      CommitAdded(CommitsApplied(g, cs[..|cs| - 1]), c.hash, c.timestamp, c.author, c.message)
  }

  /** For each hash, the attributes of the last commit that carries it. */
  function LatestCommits(cs: seq<CommitLog.Commit>): (m: map<NodeId, Attrs>)
    ensures m.Keys == set c | c in cs :: c.hash
  {
    if cs == [] then map[]
    else
      var c := cs[|cs| - 1];
      assert cs == cs[..|cs| - 1] + [c];
      LatestCommits(cs[..|cs| - 1])[c.hash := CommitAttrs(c.timestamp, c.author, c.message)]
  }

  /** Applying a log overwrites the logged hashes with their latest commit and changes nothing else. */
  lemma {:induction false} CommitsAppliedOverrides(g: GraphValue, cs: seq<CommitLog.Commit>)
    ensures CommitsApplied(g, cs) == GraphValue(g.nodes + LatestCommits(cs), g.edges)
  {
    if cs != [] {
      var init := cs[..|cs| - 1];
      var c := cs[|cs| - 1];
      CommitsAppliedOverrides(g, init);
      var a := CommitAttrs(c.timestamp, c.author, c.message);
      var prev := LatestCommits(init);
      var before := CommitsApplied(g, init);
      var r := CommitAdded(before, c.hash, c.timestamp, c.author, c.message);
      assert CommitsApplied(g, cs) == r;
      assert LatestCommits(cs) == prev[c.hash := a];
      assert r.nodes == (g.nodes + prev)[c.hash := a];
      UnionUpdate(g.nodes, prev, c.hash, a);
    }
  }

  /** The value `LatestCommits` keeps for a hash is the one from its last occurrence. */
  lemma {:induction false} LatestCommitIsLast(cs: seq<CommitLog.Commit>, i: nat)
    requires i < |cs|
    requires forall j | i < j < |cs| :: cs[j].hash != cs[i].hash
    ensures cs[i].hash in LatestCommits(cs)
    ensures LatestCommits(cs)[cs[i].hash] == CommitAttrs(cs[i].timestamp, cs[i].author, cs[i].message)
  {
    if i < |cs| - 1 {
      LatestCommitIsLast(cs[..|cs| - 1], i);
    }
  }

  /** Running the commit loop twice over the same log gives the graph running it once gives. */
  lemma CommitsAppliedIdempotent(g: GraphValue, cs: seq<CommitLog.Commit>)
    ensures CommitsApplied(CommitsApplied(g, cs), cs) == CommitsApplied(g, cs)
  {
    CommitsAppliedOverrides(g, cs);
    CommitsAppliedOverrides(CommitsApplied(g, cs), cs);
    assert g.nodes + LatestCommits(cs) + LatestCommits(cs) == g.nodes + LatestCommits(cs);
  }

  /**
   * process_repository: the log lines, or None when the git call failed
   * (which then adds nothing), each give add_commit when well formed.
   */
  method ProcessRepository(g: Graph, log: Option<seq<string>>)
    modifies g
    ensures g.Value() == CommitsApplied(old(g.Value()), LogCommits(log.GetOr([])))
  {
    var lines := log.GetOr([]);
    ghost var g0 := g.Value();
    for i := 0 to |lines|
      invariant g.Value() == CommitsApplied(g0, LogCommits(lines[..i]))
    {
      LogCommitsStep(g0, lines, i);
      match CommitLog.ParseExact(lines[i])
      case Some(c) =>
        AddCommit(g, c.hash, c.timestamp, c.author, c.message);
      case None =>
    }
    assert lines[..|lines|] == lines;
  }

  /** One more line of the log: add_commit for it when it parses, nothing otherwise. */
  lemma LogCommitsStep(g: GraphValue, lines: seq<string>, i: nat)
    requires i < |lines|
    ensures CommitsApplied(g, LogCommits(lines[..i + 1]))
         == match CommitLog.ParseExact(lines[i])
            case Some(c) => CommitAdded(CommitsApplied(g, LogCommits(lines[..i])), c.hash, c.timestamp, c.author, c.message)
            case None => CommitsApplied(g, LogCommits(lines[..i]))
  {
    assert lines[..i + 1][..i] == lines[..i];
    match CommitLog.ParseExact(lines[i])
    case Some(c) =>
      var cs := LogCommits(lines[..i]) + [c];
      assert cs[..|cs| - 1] == LogCommits(lines[..i]);
    case None =>
  }

  /** The commit loop keeps a valid graph valid. */
  lemma CommitsAppliedKeepsValid(g: GraphValue, cs: seq<CommitLog.Commit>)
    requires g.Valid()
    ensures CommitsApplied(g, cs).Valid()
  {
    CommitsAppliedOverrides(g, cs);
  }

  /**
   * A log of one well-formed line and one line without exactly three '|'
   * gives exactly one commit node, whatever the second line says.
   */
  lemma MalformedLineSkipped(good: string, bad: string)
    requires Text.Count(good, '|') == 3 && Text.Count(bad, '|') != 3
    ensures LogCommits([good, bad]) == [CommitLog.ParseExact(good).value]
    ensures CommitsApplied(EmptyGraph, LogCommits([good, bad])).nodes.Keys == {CommitLog.ParseExact(good).value.hash}
  {
    assert [good, bad][..1] == [good];
    assert [good][..0] == [];
    var cs := LogCommits([good, bad]);
    CommitsAppliedOverrides(EmptyGraph, cs);
    assert cs[..0] == [];
  }

  // ---------------------------------------------------------------- analyze_zig_file

  /** A node's dictionary before an update: empty when the node is absent. */
  function Prior(g: GraphValue, n: NodeId): Attrs {
    if n in g.nodes then g.nodes[n] else map[]
  }

  function ReferencePairs(path: NodeId, imports: set<NodeId>): set<(NodeId, NodeId)> {
    set imp | imp in imports :: (path, imp)
  }

  /** The node dictionaries after `path` and `imports` are given `node_type` "file". */
  function RetypedNodes(g: GraphValue, path: NodeId, imports: set<NodeId>): map<NodeId, Attrs> {
    var touched := imports + {path};
    map n | n in g.nodes.Keys + touched :: if n in touched then Prior(g, n) + TypeAttrs(FILE) else g.nodes[n]
  }

  /** The edge labels after each pair (path, import) is labelled "references". */
  function ReferenceEdges(g: GraphValue, path: NodeId, imports: set<NodeId>): map<(NodeId, NodeId), string> {
    g.edges + map e | e in ReferencePairs(path, imports) :: REFERENCES
  }

  /**
   * The effect of analyze_zig_file's loop over a set of imports: when there is
   * at least one, the file and every import get `node_type` "file", and each
   * pair (file, import) is labelled "references". With no import, the graph
   * is left as it was.
   */
  function ImportsRecorded(g: GraphValue, path: NodeId, imports: set<NodeId>): (r: GraphValue)
    ensures imports == {} ==> r == g
  {
    if imports == {} then g
    else GraphValue(RetypedNodes(g, path, imports), ReferenceEdges(g, path, imports))
  }

  /**
   * What recording the imports does: the file and every import end up typed
   * "file" with their other attributes kept (absent ones created), no other
   * node changes, each pair (file, import) is labelled "references", every
   * other edge keeps its label, and a valid graph stays valid.
   */
  lemma ImportsRecordedEffect(g: GraphValue, path: NodeId, imports: set<NodeId>)
    requires imports != {}
    ensures var r := ImportsRecorded(g, path, imports);
      && r.nodes.Keys == g.nodes.Keys + imports + {path}
      && (forall n | n in imports || n == path ::
            Get(r.nodes[n], NodeTypeKey) == Some(FILE)
            && forall k | k != NodeTypeKey :: Get(r.nodes[n], k) == Get(Prior(g, n), k))
      && (forall n | n in g.nodes && n !in imports && n != path :: r.nodes[n] == g.nodes[n])
      && (forall imp | imp in imports :: (path, imp) in r.edges && r.edges[(path, imp)] == REFERENCES)
      && (forall e | e in g.edges && e !in ReferencePairs(path, imports) :: e in r.edges && r.edges[e] == g.edges[e])
      && r.edges.Keys == g.edges.Keys + ReferencePairs(path, imports)
      && (g.Valid() ==> r.Valid())
  {
    RetypedNodesEffect(g, path, imports);
    ReferenceEdgesEffect(g, path, imports);
  }

  lemma RetypedNodesEffect(g: GraphValue, path: NodeId, imports: set<NodeId>)
    ensures var m := RetypedNodes(g, path, imports);
      && m.Keys == g.nodes.Keys + imports + {path}
      && (forall n | n in imports || n == path ::
            Get(m[n], NodeTypeKey) == Some(FILE)
            && forall k | k != NodeTypeKey :: Get(m[n], k) == Get(Prior(g, n), k))
      && (forall n | n in g.nodes && n !in imports && n != path :: m[n] == g.nodes[n])
  {
    var m := RetypedNodes(g, path, imports);
    forall n | n in imports || n == path
      ensures Get(m[n], NodeTypeKey) == Some(FILE)
      ensures forall k | k != NodeTypeKey :: Get(m[n], k) == Get(Prior(g, n), k)
    {
      assert m[n] == Prior(g, n) + TypeAttrs(FILE);
    }
  }

  lemma ReferenceEdgesEffect(g: GraphValue, path: NodeId, imports: set<NodeId>)
    ensures var e := ReferenceEdges(g, path, imports);
      && (forall imp | imp in imports :: (path, imp) in e && e[(path, imp)] == REFERENCES)
      && (forall x | x in g.edges && x !in ReferencePairs(path, imports) :: x in e && e[x] == g.edges[x])
      && e.Keys == g.edges.Keys + ReferencePairs(path, imports)
  {
    forall imp | imp in imports ensures (path, imp) in ReferencePairs(path, imports) {
    }
  }

  lemma RetypedNodesStep(g: GraphValue, path: NodeId, done: set<NodeId>, imp: NodeId)
    ensures RetypedNodes(g, path, done + {imp})
         == (var m := RetypedNodes(g, path, done); var m1 := m[path := m[path] + TypeAttrs(FILE)];
             m1[imp := (if imp in m1 then m1[imp] else map[]) + TypeAttrs(FILE)])
  {
    var m := RetypedNodes(g, path, done);
    var m1 := m[path := m[path] + TypeAttrs(FILE)];
    var after := m1[imp := (if imp in m1 then m1[imp] else map[]) + TypeAttrs(FILE)];
    var want := RetypedNodes(g, path, done + {imp});
    forall n | n in want
      ensures n in after && after[n] == want[n]
    {
      if n == path || n == imp || n in done {
        MergeTwice(Prior(g, n), TypeAttrs(FILE));
      }
    }
    assert want.Keys == after.Keys;
  }

  lemma ReferenceEdgesStep(g: GraphValue, path: NodeId, done: set<NodeId>, imp: NodeId)
    ensures ReferenceEdges(g, path, done + {imp}) == ReferenceEdges(g, path, done)[(path, imp) := REFERENCES]
  {
    assert ReferencePairs(path, done + {imp}) == ReferencePairs(path, done) + {(path, imp)};
  }

  lemma RetypedNodesFirst(g: GraphValue, path: NodeId)
    ensures RetypedNodes(g, path, {}) == g.nodes[path := Prior(g, path) + TypeAttrs(FILE)]
    ensures var m := RetypedNodes(g, path, {}); m[path := m[path] + TypeAttrs(FILE)] == m
  {
    MergeTwice(Prior(g, path), TypeAttrs(FILE));
  }

  /** Typing the file node first: on the first import it is new, later it is typed already. */
  lemma RetypeFileFirst(g: GraphValue, path: NodeId, done: set<NodeId>)
    ensures var m := RetypedNodes(g, path, done);
      ImportsRecorded(g, path, done).AddNode(path, TypeAttrs(FILE)).nodes == m[path := m[path] + TypeAttrs(FILE)]
  {
    if done == {} {
      RetypedNodesFirst(g, path);
    }
  }

  /** One more import handled by the loop body. */
  lemma ImportsRecordedStep(g: GraphValue, path: NodeId, done: set<NodeId>, imp: NodeId)
    ensures ImportsRecorded(g, path, done + {imp})
         == ImportsRecorded(g, path, done).AddNode(path, TypeAttrs(FILE)).AddNode(imp, TypeAttrs(FILE)).AddEdge(path, imp, REFERENCES)
  {
    var m := RetypedNodes(g, path, done);
    var g1 := ImportsRecorded(g, path, done).AddNode(path, TypeAttrs(FILE));
    assert g1.nodes == m[path := m[path] + TypeAttrs(FILE)] by {
      RetypeFileFirst(g, path, done);
    }
    assert g1.edges == ReferenceEdges(g, path, done);
    var g2 := g1.AddNode(imp, TypeAttrs(FILE));
    assert g2.nodes == RetypedNodes(g, path, done + {imp}) by {
      RetypedNodesStep(g, path, done, imp);
    }
    var g3 := g2.AddEdge(path, imp, REFERENCES);
    assert g3.edges == ReferenceEdges(g, path, done + {imp}) by {
      ReferenceEdgesStep(g, path, done, imp);
    }
    assert g3.nodes == g2.nodes;
  }

  /**
   * analyze_zig_file: content that could not be read (None) leaves the graph
   * unchanged; otherwise each distinct imported name is recorded.
   */
  method AnalyzeZigFile(g: Graph, path: NodeId, content: Option<string>)
    modifies g
    ensures content.None? ==> g.Value() == old(g.Value())
    ensures content.Some? ==> g.Value() == ImportsRecorded(old(g.Value()), path, ImportScan.Imports(content.value))
  {
    if content.Some? {
      var imports := ImportScan.Imports(content.value);
      ghost var g0 := g.Value();
      var todo := imports;
      while todo != {}
        invariant todo <= imports
        invariant g.Value() == ImportsRecorded(g0, path, imports - todo)
        decreases todo
      {
        var imp :| imp in todo;
        ImportsRecordedStep(g0, path, imports - todo, imp);
        g.AddNode(path, TypeAttrs(FILE));
        g.AddNode(imp, TypeAttrs(FILE));
        g.AddEdge(path, imp, REFERENCES);
        assert imports - (todo - {imp}) == (imports - todo) + {imp};
        todo := todo - {imp};
      }
      assert imports - todo == imports;
    }
  }
}
