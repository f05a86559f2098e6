/**
 * The durable store and its synchronisation with the in-memory graph
 * (save_graph_to_db, load_graph_from_db), and the `/commits` query over it.
 * The two tables are kept abstract: the `nodes` table as rows keyed by their
 * primary key `id`, the `edges` table as the set of its (src, dest, relation)
 * primary keys.
 */
module Persistence {
  import opened Wrappers
  import opened GraphModel

  /** A row of the `nodes` table without its key; NULL is None. */
  datatype Row = Row(nodeType: Option<string>, timestamp: Option<string>, author: Option<string>, message: Option<string>)

  /** A row of the `edges` table: (src, dest, relation). */
  type Link = (NodeId, NodeId, string)

  /** The row save writes for a node: its four attributes read with `.get`. */
  function RowOf(a: Attrs): Row {
    Row(Get(a, NodeTypeKey), Get(a, TimestampKey), Get(a, AuthorKey), Get(a, MessageKey))
  }

  /** The dictionary load writes for a row: all four keyword arguments, None included. */
  function AttrsOf(r: Row): (a: Attrs)
    ensures Complete(a)
    ensures RowOf(a) == r
  {
    map[NodeTypeKey := r.nodeType, TimestampKey := r.timestamp, AuthorKey := r.author, MessageKey := r.message]
  }

  /** The `nodes` rows of a graph's nodes. */
  function NodeRows(nodes: map<NodeId, Attrs>): map<NodeId, Row> {
    map n | n in nodes :: RowOf(nodes[n])
  }

  /** The `edges` rows of a graph's edges. */
  function EdgeLinks(edges: map<(NodeId, NodeId), string>): (links: set<Link>)
    ensures forall e | e in edges :: (e.0, e.1, edges[e]) in links
    ensures forall l | l in links :: (l.0, l.1) in edges && edges[(l.0, l.1)] == l.2
  {
    set e | e in edges :: (e.0, e.1, edges[e])
  }

  /**
   * `INSERT OR IGNORE` of the graph's node rows: an id already stored keeps
   * its stored row, a new id gets the row of its node.
   */
  function SavedRows(rows: map<NodeId, Row>, nodes: map<NodeId, Attrs>): (r: map<NodeId, Row>)
    ensures r.Keys == rows.Keys + nodes.Keys
    ensures forall id | id in rows :: r[id] == rows[id]
    ensures forall id | id in nodes && id !in rows :: r[id] == RowOf(nodes[id])
  {
    NodeRows(nodes) + rows
  }

  /** The store as a value. */
  datatype StoreValue = StoreValue(rows: map<NodeId, Row>, links: set<Link>)

  const EmptyStore: StoreValue := StoreValue(map[], {})

  /** save_graph_to_db on a graph value. */
  function Saved(s: StoreValue, g: GraphValue): (r: StoreValue)
    ensures r.rows == SavedRows(s.rows, g.nodes)
    ensures r.links == s.links + EdgeLinks(g.edges)
  {
    StoreValue(SavedRows(s.rows, g.nodes), s.links + EdgeLinks(g.edges))
  }

  /** Saving the same graph a second time leaves the store as the first save left it. */
  lemma SavedIdempotent(s: StoreValue, g: GraphValue)
    ensures Saved(Saved(s, g), g) == Saved(s, g)
  {
    var once := SavedRows(s.rows, g.nodes);
    assert SavedRows(once, g.nodes) == once;
  }

  /** The ids that an edge row names. */
  function Endpoints(links: set<Link>): set<NodeId>
  {
    (set l | l in links :: l.0) + (set l | l in links :: l.1)
  }

  /** The node pairs that an edge row names. */
  function LinkPairs(links: set<Link>): set<(NodeId, NodeId)>
  {
    set l | l in links :: (l.0, l.1)
  }

  /**
   * The node part of what load_graph_from_db leaves: every stored id has
   * exactly the attributes of its row (add_node with all four keys replaces
   * them), every other node is as before, and an id that only an edge row
   * names is a new node without attributes.
   */
  ghost predicate NodesLoaded(before: map<NodeId, Attrs>, rows: map<NodeId, Row>, ends: set<NodeId>, after: map<NodeId, Attrs>) {
    && after.Keys == before.Keys + rows.Keys + ends
    && (forall id | id in rows :: after[id] == AttrsOf(rows[id]))
    && (forall id | id in before && id !in rows :: after[id] == before[id])
    && (forall id | id in after && id !in before && id !in rows :: after[id] == map[])
  }

  /**
   * The edge part: every pair named by a stored edge row is an edge labelled
   * with the relation of one of the stored rows for that pair (the one read
   * last), and every other edge is as before.
   */
  ghost predicate EdgesLoaded(before: map<(NodeId, NodeId), string>, links: set<Link>, after: map<(NodeId, NodeId), string>) {
    && after.Keys == before.Keys + LinkPairs(links)
    && (forall e | e in before && e !in LinkPairs(links) :: after[e] == before[e])
    && (forall e | e in LinkPairs(links) :: (e.0, e.1, after[e]) in links)
  }

  /** What load_graph_from_db may leave, rows being read in an order the store chooses. */
  ghost predicate Loaded(before: GraphValue, s: StoreValue, after: GraphValue) {
    && NodesLoaded(before.nodes, s.rows, Endpoints(s.links), after.nodes)
    && EdgesLoaded(before.edges, s.links, after.edges)
  }

  /** A stored pair whose rows all carry one relation gets exactly that relation back. */
  lemma LoadedUniqueRelation(before: GraphValue, s: StoreValue, after: GraphValue, l: Link)
    requires Loaded(before, s, after)
    requires l in s.links
    requires forall m | m in s.links && m.0 == l.0 && m.1 == l.1 :: m.2 == l.2
    ensures (l.0, l.1) in after.edges && after.edges[(l.0, l.1)] == l.2
  {
    assert (l.0, l.1, after.edges[(l.0, l.1)]) in s.links;
  }

  /** Loading from an empty store changes nothing. */
  lemma LoadEmptyStore(before: GraphValue, after: GraphValue)
    requires Loaded(before, EmptyStore, after)
    ensures after == before
  {
    assert Endpoints({}) == {};
    assert after.nodes == before.nodes;
  }

  /** The node part of one edge row read by load's second loop. */
  lemma LoadEdgeNodes(before: map<NodeId, Attrs>, rows: map<NodeId, Row>, done: set<Link>, l: Link, n1: map<NodeId, Attrs>, n2: map<NodeId, Attrs>)
    requires NodesLoaded(before, rows, Endpoints(done), n1)
    requires n2.Keys == n1.Keys + {l.0, l.1}
    requires forall n | n in n1 :: n2[n] == n1[n]
    requires forall n | n in n2 && n !in n1 :: n2[n] == map[]
    ensures NodesLoaded(before, rows, Endpoints(done + {l}), n2)
  {
    var ends := Endpoints(done + {l});
    assert ends == Endpoints(done) + {l.0, l.1};
    assert n2.Keys == before.Keys + rows.Keys + ends;
    forall id | id in rows ensures n2[id] == AttrsOf(rows[id]) {
      assert id in n1;
    }
    forall id | id in before && id !in rows ensures n2[id] == before[id] {
      assert id in n1;
    }
    forall id | id in n2 && id !in before && id !in rows ensures n2[id] == map[] {
      if id in n1 {
        assert n1[id] == map[];
      }
    }
  }

  /** The edge part of one edge row read by load's second loop. */
  lemma LoadEdgeEdges(before: map<(NodeId, NodeId), string>, done: set<Link>, l: Link, e1: map<(NodeId, NodeId), string>, e2: map<(NodeId, NodeId), string>)
    requires EdgesLoaded(before, done, e1)
    requires e2 == e1[(l.0, l.1) := l.2]
    ensures EdgesLoaded(before, done + {l}, e2)
  {
    var links := done + {l};
    assert LinkPairs(links) == LinkPairs(done) + {(l.0, l.1)};
    forall e | e in LinkPairs(links) ensures (e.0, e.1, e2[e]) in links {
      if e != (l.0, l.1) {
        assert (e.0, e.1, e1[e]) in done;
      }
    }
  }

  /** One edge row read by load's second loop keeps the description true. */
  lemma LoadEdgeStep(before: GraphValue, rows: map<NodeId, Row>, done: set<Link>, l: Link, g1: GraphValue, g2: GraphValue)
    requires Loaded(before, StoreValue(rows, done), g1)
    requires g2 == g1.AddEdge(l.0, l.1, l.2)
    ensures Loaded(before, StoreValue(rows, done + {l}), g2)
  {
    g1.AddEdgeCreatesEndpoints(l.0, l.1, l.2);
    LoadEdgeNodes(before.nodes, rows, done, l, g1.nodes, g2.nodes);
    assert g2.edges == g1.edges[(l.0, l.1) := l.2];
    LoadEdgeEdges(before.edges, done, l, g1.edges, g2.edges);
  }

  /** The ids named by the edge rows of a valid graph are its nodes. */
  lemma EndpointsAreNodes(g: GraphValue)
    requires g.Valid()
    ensures Endpoints(EdgeLinks(g.edges)) <= g.nodes.Keys
  {
    forall id | id in Endpoints(EdgeLinks(g.edges)) ensures id in g.nodes {
      var l :| l in EdgeLinks(g.edges) && (id == l.0 || id == l.1);
    }
  }

  /** Loading the rows of `nodes`, with no other id named, gives each node its four attributes back. */
  lemma NodesBack(nodes: map<NodeId, Attrs>, ends: set<NodeId>, after: map<NodeId, Attrs>)
    requires ends <= nodes.Keys
    requires NodesLoaded(map[], NodeRows(nodes), ends, after)
    ensures after.Keys == nodes.Keys
    ensures forall id, k | id in nodes :: Get(after[id], k) == Get(nodes[id], k)
  {
    forall id, k | id in nodes
      ensures Get(after[id], k) == Get(nodes[id], k)
    {
      assert after[id] == AttrsOf(RowOf(nodes[id]));
      match k
      case NodeTypeKey =>
      case TimestampKey =>
      case AuthorKey =>
      case MessageKey =>
    }
  }

  /** After a save into an empty store, a load gives back the node ids with their four attributes. */
  lemma RoundTripNodes(g: GraphValue, h: GraphValue)
    requires g.Valid()
    requires Loaded(EmptyGraph, Saved(EmptyStore, g), h)
    ensures h.nodes.Keys == g.nodes.Keys
    ensures forall id, k | id in g.nodes :: Get(h.nodes[id], k) == Get(g.nodes[id], k)
  {
    var s := Saved(EmptyStore, g);
    assert s.rows == NodeRows(g.nodes);
    assert s.links == EdgeLinks(g.edges);
    EndpointsAreNodes(g);
    NodesBack(g.nodes, Endpoints(s.links), h.nodes);
  }

  /** Loading exactly the edge rows of `edges` into no edges gives `edges` back. */
  lemma EdgesBack(edges: map<(NodeId, NodeId), string>, after: map<(NodeId, NodeId), string>)
    requires EdgesLoaded(map[], EdgeLinks(edges), after)
    ensures after == edges
  {
    var links := EdgeLinks(edges);
    forall e | e in edges ensures e in LinkPairs(links) {
      assert (e.0, e.1, edges[e]) in links;
    }
    forall e | e in LinkPairs(links) ensures e in edges {
      var l :| l in links && e == (l.0, l.1);
    }
    forall e | e in edges ensures after[e] == edges[e] {
      assert (e.0, e.1, after[e]) in links;
    }
  }

  /** After a save into an empty store, a load gives back exactly the labelled edges. */
  lemma RoundTripEdges(g: GraphValue, h: GraphValue)
    requires Loaded(EmptyGraph, Saved(EmptyStore, g), h)
    ensures h.edges == g.edges
  {
    assert Saved(EmptyStore, g).links == EdgeLinks(g.edges);
    EdgesBack(g.edges, h.edges);
  }

  /**
   * Round trip: save a valid graph into an empty store and load it into an
   * empty graph, and the same node ids come back with the same four
   * attributes, and the same labelled edges.
   */
  lemma SaveLoadRoundTrip(g: GraphValue, h: GraphValue)
    requires g.Valid()
    requires Loaded(EmptyGraph, Saved(EmptyStore, g), h)
    ensures h.nodes.Keys == g.nodes.Keys
    ensures forall id, k | id in g.nodes :: Get(h.nodes[id], k) == Get(g.nodes[id], k)
    ensures h.edges == g.edges
  {
    RoundTripNodes(g, h);
    RoundTripEdges(g, h);
  }

  /** The persistent store the synchroniser reads and writes. */
  class Store {
    var rows: map<NodeId, Row>
    var links: set<Link>

    function Value(): StoreValue
      reads this
    {
      StoreValue(rows, links)
    }

    /** An initialised, empty database. */
    constructor ()
      ensures Value() == EmptyStore
    {
      rows := map[];
      links := {};
    }
  }

  /** The edge rows of the edges among `keys`. */
  function LinksOf(edges: map<(NodeId, NodeId), string>, keys: set<(NodeId, NodeId)>): set<Link> {
    set e | e in keys && e in edges :: (e.0, e.1, edges[e])
  }

  lemma LinksOfStep(edges: map<(NodeId, NodeId), string>, keys: set<(NodeId, NodeId)>, e: (NodeId, NodeId))
    requires e in edges
    ensures LinksOf(edges, keys + {e}) == LinksOf(edges, keys) + {(e.0, e.1, edges[e])}
  {
  }

  /** save_graph_to_db's first loop: `INSERT OR IGNORE` of each node row. */
  method SaveRows(g: Graph, db: Store)
    modifies db
    ensures db.rows == SavedRows(old(db.rows), g.nodes)
    ensures db.links == old(db.links)
  {
    ghost var rows0 := db.rows;
    ghost var done: set<NodeId> := {};
    var pending := g.nodes.Keys;
    while pending != {}
      invariant pending !! done && pending + done == g.nodes.Keys
      invariant db.rows.Keys == rows0.Keys + done
      invariant forall id | id in rows0 :: db.rows[id] == rows0[id]
      invariant forall id | id in done && id !in rows0 :: db.rows[id] == RowOf(g.nodes[id])
      invariant db.links == old(db.links)
      decreases pending
    {
      var n :| n in pending;
      if n !in db.rows {
        db.rows := db.rows[n := RowOf(g.nodes[n])];
      }
      pending := pending - {n};
      done := done + {n};
    }
  }

  /** save_graph_to_db's second loop: `INSERT OR IGNORE` of each edge row. */
  method SaveLinks(g: Graph, db: Store)
    modifies db
    ensures db.rows == old(db.rows)
    ensures db.links == old(db.links) + EdgeLinks(g.edges)
  {
    ghost var saved: set<(NodeId, NodeId)> := {};
    var edges := g.edges.Keys;
    while edges != {}
      invariant edges !! saved && edges + saved == g.edges.Keys
      invariant db.rows == old(db.rows)
      invariant db.links == old(db.links) + LinksOf(g.edges, saved)
      decreases edges
    {
      var e :| e in edges;
      db.links := db.links + {(e.0, e.1, g.edges[e])};
      LinksOfStep(g.edges, saved, e);
      edges := edges - {e};
      saved := saved + {e};
    }
    assert LinksOf(g.edges, saved) == EdgeLinks(g.edges);
  }

  /** save_graph_to_db: insert-or-ignore every node row, then every edge row. */
  method SaveGraph(g: Graph, db: Store)
    modifies db
    ensures db.Value() == Saved(old(db.Value()), g.Value())
  {
    SaveRows(g, db);
    SaveLinks(g, db);
  }

  /** The dictionaries load's first loop writes for the stored rows whose ids are in `ids`. */
  function RowAttrs(rows: map<NodeId, Row>, ids: set<NodeId>): map<NodeId, Attrs> {
    map id | id in rows && id in ids :: AttrsOf(rows[id])
  }

  lemma RowAttrsStep(rows: map<NodeId, Row>, done: set<NodeId>, id: NodeId)
    requires id in rows
    ensures RowAttrs(rows, done + {id}) == RowAttrs(rows, done)[id := AttrsOf(rows[id])]
  {
  }

  /** Every row's dictionary written over the nodes there were: the node part of a load without edge rows. */
  lemma RowAttrsLoaded(before: map<NodeId, Attrs>, rows: map<NodeId, Row>)
    ensures NodesLoaded(before, rows, {}, before + RowAttrs(rows, rows.Keys))
  {
    var m := RowAttrs(rows, rows.Keys);
    var after := before + m;
    assert m.Keys == rows.Keys;
    forall id | id in rows ensures after[id] == AttrsOf(rows[id]) {
      assert id in m;
    }
    forall id | id in before && id !in rows ensures after[id] == before[id] {
      assert id !in m;
    }
  }

  /**
   * One stored row read by load's first loop: add_node with all four keys
   * replaces whatever the node held by the row's dictionary.
   */
  lemma LoadRowStep(before: map<NodeId, Attrs>, rows: map<NodeId, Row>, done: set<NodeId>, id: NodeId, n1: map<NodeId, Attrs>, n2: map<NodeId, Attrs>)
    requires id in rows
    requires n1 == before + RowAttrs(rows, done)
    requires n2 == n1[id := (if id in n1 then n1[id] else map[]) + AttrsOf(rows[id])]
    ensures n2 == before + RowAttrs(rows, done + {id})
  {
    MergeComplete(if id in n1 then n1[id] else map[], AttrsOf(rows[id]));
    RowAttrsStep(rows, done, id);
    UnionUpdate(before, RowAttrs(rows, done), id, AttrsOf(rows[id]));
  }

  /** load_graph_from_db's first loop: add_node for every stored row, with all four attributes. */
  method LoadRows(g: Graph, db: Store)
    modifies g
    ensures NodesLoaded(old(g.nodes), db.rows, {}, g.nodes)
    ensures g.edges == old(g.edges)
  {
    ghost var before := g.nodes;
    ghost var done: set<NodeId> := {};
    var pending := db.rows.Keys;
    while pending != {}
      invariant pending !! done && pending + done == db.rows.Keys
      invariant g.nodes == before + RowAttrs(db.rows, done)
      invariant g.edges == old(g.edges)
      decreases pending
    {
      var id :| id in pending;
      ghost var n1 := g.nodes;
      g.AddNode(id, AttrsOf(db.rows[id]));
      LoadRowStep(before, db.rows, done, id, n1, g.nodes);
      pending := pending - {id};
      done := done + {id};
    }
    RowAttrsLoaded(before, db.rows);
  }

  /** load_graph_from_db's second loop: add_edge for every stored edge row. */
  method LoadLinks(g: Graph, db: Store, ghost before: GraphValue)
    requires Loaded(before, StoreValue(db.rows, {}), g.Value())
    modifies g
    ensures Loaded(before, db.Value(), g.Value())
  {
    ghost var read: set<Link> := {};
    var todo := db.links;
    while todo != {}
      invariant todo !! read && todo + read == db.links
      invariant Loaded(before, StoreValue(db.rows, read), g.Value())
      decreases todo
    {
      var l :| l in todo;
      ghost var g1 := g.Value();
      g.AddEdge(l.0, l.1, l.2);
      LoadEdgeStep(before, db.rows, read, l, g1, g.Value());
      todo := todo - {l};
      read := read + {l};
    }
  }

  /**
   * load_graph_from_db: add_node for every stored row with all four
   * attributes, then add_edge for every stored edge row, each table read in
   * the order the store returns it.
   */
  method LoadGraph(g: Graph, db: Store)
    modifies g
    ensures Loaded(old(g.Value()), db.Value(), g.Value())
  {
    ghost var before := g.Value();
    LoadRows(g, db);
    assert Endpoints({}) == {} && LinkPairs({}) == {};
    LoadLinks(g, db, before);
  }

  // ---------------------------------------------------------------- get_commits

  /** One element of the `/commits` answer. */
  datatype CommitView = CommitView(commit: string, timestamp: Option<string>, author: Option<string>, message: Option<string>)

  /** `id[:7]`: the first seven characters, or all of a shorter id. */
  function ShortId(id: string): (r: string)
    ensures |r| == if |id| < 7 then |id| else 7
    ensures r == id[..|r|]
  {
    if |id| <= 7 then id else id[..7]
  }

  function ViewOf(id: NodeId, r: Row): CommitView {
    CommitView(ShortId(id), r.timestamp, r.author, r.message)
  }

  predicate IsCommitRow(r: Row) {
    r.nodeType == Some(COMMIT)
  }

  /**
   * get_commits over the rows the query reads, in the order the store returns
   * them: the rows whose type is "commit", in that order, each with its id cut
   * to seven characters and its other three columns unchanged.
   */
  function GetCommits(table: seq<(NodeId, Row)>): (r: seq<CommitView>)
    ensures |r| <= |table|
    ensures forall v | v in r :: exists t | t in table :: IsCommitRow(t.1) && v == ViewOf(t.0, t.1)
    ensures forall t | t in table && IsCommitRow(t.1) :: ViewOf(t.0, t.1) in r
  {
    if table == [] then []
    else
      var rest := GetCommits(table[1..]);
      assert forall t | t in table[1..] :: t in table;
      assert forall t | t in table :: t == table[0] || t in table[1..];
      if IsCommitRow(table[0].1) then [ViewOf(table[0].0, table[0].1)] + rest else rest
  }

  /** The answer follows the table row by row: two stretches of rows give their views one after the other. */
  lemma {:induction false} GetCommitsAppend(t1: seq<(NodeId, Row)>, t2: seq<(NodeId, Row)>)
    ensures GetCommits(t1 + t2) == GetCommits(t1) + GetCommits(t2)
  {
    if t1 == [] {
      assert t1 + t2 == t2;
    } else {
      assert (t1 + t2)[0] == t1[0];
      assert (t1 + t2)[1..] == t1[1..] + t2;
      GetCommitsAppend(t1[1..], t2);
    }
  }

  /** One more row at the end adds its view at the end when it is a commit row, and nothing otherwise. */
  lemma GetCommitsSnoc(table: seq<(NodeId, Row)>, t: (NodeId, Row))
    ensures GetCommits(table + [t]) == GetCommits(table) + if IsCommitRow(t.1) then [ViewOf(t.0, t.1)] else []
  {
    GetCommitsAppend(table, [t]);
    assert [t][1..] == [];
  }

  /** A listing of a store's `nodes` table: each row once, every row present. */
  predicate Enumerates(table: seq<(NodeId, Row)>, rows: map<NodeId, Row>) {
    && (forall i | 0 <= i < |table| :: table[i].0 in rows && rows[table[i].0] == table[i].1)
    && (forall id | id in rows :: exists i | 0 <= i < |table| :: table[i].0 == id)
  }

  /** Over a listing of the store, the answer holds exactly the views of the stored commit rows. */
  lemma GetCommitsOfStore(table: seq<(NodeId, Row)>, rows: map<NodeId, Row>, v: CommitView)
    requires Enumerates(table, rows)
    ensures v in GetCommits(table) <==> exists id | id in rows :: IsCommitRow(rows[id]) && v == ViewOf(id, rows[id])
  {
    if v in GetCommits(table) {
      var t :| t in table && IsCommitRow(t.1) && v == ViewOf(t.0, t.1);
      var i :| 0 <= i < |table| && table[i] == t;
    }
    if exists id | id in rows :: IsCommitRow(rows[id]) && v == ViewOf(id, rows[id]) {
      var id :| id in rows && IsCommitRow(rows[id]) && v == ViewOf(id, rows[id]);
      var i :| 0 <= i < |table| && table[i].0 == id;
      assert table[i] in table;
    }
  }
}
