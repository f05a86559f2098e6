/**
 * The part of a networkx `DiGraph` the core uses: nodes keyed by id, each with
 * an attribute dictionary, and at most one edge per ordered pair of nodes,
 * carrying its `relation` label.
 */
module GraphModel {
  import opened Wrappers

  type NodeId = string

  /** The four node attributes the core writes. */
  datatype AttrKey = NodeTypeKey | TimestampKey | AuthorKey | MessageKey

  /** A node's attribute dictionary; a value is a Python `str` or `None`. */
  type Attrs = map<AttrKey, Option<string>>

  /** The values of the `NodeType` enumeration. */
  const COMMIT: string := "commit"
  const FILE: string := "file"
  const FOLDER: string := "folder"

  /** The edge labels the construction helpers write. */
  const MODIFIES: string := "modifies"
  const CONTAINS: string := "contains"
  const REFERENCES: string := "references"

  /** `attrs.get(k)`: a missing key reads as `None`. */
  function Get(a: Attrs, k: AttrKey): Option<string> {
    if k in a then a[k] else None
  }

  /** A dictionary that sets every one of the four keys. */
  predicate Complete(a: Attrs) {
    NodeTypeKey in a && TimestampKey in a && AuthorKey in a && MessageKey in a
  }

  /** Merging a complete dictionary over any other leaves exactly the complete one. */
  lemma MergeComplete(old_: Attrs, a: Attrs)
    requires Complete(a)
    ensures old_ + a == a
  {
    forall k | k in old_ ensures k in a {
      match k
      case NodeTypeKey =>
      case TimestampKey =>
      case AuthorKey =>
      case MessageKey =>
    }
  }

  /** Updating the right operand of a map union updates the union. */
  lemma UnionUpdate<K, V>(m: map<K, V>, n: map<K, V>, k: K, v: V)
    ensures m + n[k := v] == (m + n)[k := v]
  {
  }

  /** Merging the same dictionary twice is merging it once. */
  lemma MergeTwice<K, V>(m: map<K, V>, n: map<K, V>)
    ensures (m + n) + n == m + n
  {
  }

  /** The whole graph as a value. */
  datatype GraphValue = GraphValue(nodes: map<NodeId, Attrs>, edges: map<(NodeId, NodeId), string>) {

    /** Every edge's endpoints are nodes (networkx keeps this by creating missing endpoints). */
    ghost predicate Valid() {
      forall e | e in edges :: e.0 in nodes && e.1 in nodes
    }

    /** `G.add_node(id, **attrs)`: creates the node, or updates the given keys of an existing one. */
    function AddNode(id: NodeId, attrs: Attrs): (r: GraphValue)
      ensures r.nodes.Keys == nodes.Keys + {id}
      ensures r.edges == edges
    {
      GraphValue(nodes[id := (if id in nodes then nodes[id] else map[]) + attrs], edges)
    }

    /**
     * add_node sets the given attributes, keeps the node's other attributes
     * (none for a new node), leaves every other node alone and keeps
     * endpoints present.
     */
    lemma AddNodeMerges(id: NodeId, attrs: Attrs)
      ensures forall k :: Get(AddNode(id, attrs).nodes[id], k) == if k in attrs then attrs[k] else if id in nodes then Get(nodes[id], k) else None
      ensures forall n | n in nodes && n != id :: AddNode(id, attrs).nodes[n] == nodes[n]
      ensures Valid() ==> AddNode(id, attrs).Valid()
    {
      var merged := AddNode(id, attrs).nodes[id];
      forall k ensures Get(merged, k) == if k in attrs then attrs[k] else if id in nodes then Get(nodes[id], k) else None {
        assert k in merged <==> k in attrs || (id in nodes && k in nodes[id]);
      }
    }

    /**
     * `G.add_edge(u, v, relation=relation)`: creates missing endpoints with no
     * attributes and gives the pair (u, v) that label, replacing an earlier one.
     */
    function AddEdge(u: NodeId, v: NodeId, relation: string): (r: GraphValue)
      ensures r.nodes.Keys == nodes.Keys + {u, v}
      ensures r.edges == edges[(u, v) := relation]
    {
      var withU := if u in nodes then nodes else nodes[u := map[]];
      var withV := if v in withU then withU else withU[v := map[]];
      GraphValue(withV, edges[(u, v) := relation])
    }

    /**
     * add_edge leaves existing nodes as they are, gives a created endpoint an
     * empty dictionary, and makes a valid graph valid again.
     */
    lemma AddEdgeCreatesEndpoints(u: NodeId, v: NodeId, relation: string)
      ensures forall n | n in nodes :: AddEdge(u, v, relation).nodes[n] == nodes[n]
      ensures forall n | n in AddEdge(u, v, relation).nodes && n !in nodes :: AddEdge(u, v, relation).nodes[n] == map[]
      ensures AddEdge(u, v, relation).Valid() <== Valid()
    {
    }
  }

  const EmptyGraph: GraphValue := GraphValue(map[], map[])

  /** The in-memory graph that the construction helpers update in place. */
  class Graph {
    var nodes: map<NodeId, Attrs>
    var edges: map<(NodeId, NodeId), string>

    function Value(): GraphValue
      reads this
    {
      GraphValue(nodes, edges)
    }

    ghost predicate Valid()
      reads this
    {
      Value().Valid()
    }

    /** `nx.DiGraph()`. */
    constructor ()
      ensures Value() == EmptyGraph && Valid()
    {
      nodes := map[];
      edges := map[];
    }

    /** `id in G`. */
    function Has(id: NodeId): (b: bool)
      reads this
      ensures b <==> id in Value().nodes
    {
      id in nodes
    }

    method AddNode(id: NodeId, attrs: Attrs)
      modifies this
      ensures Value() == old(Value()).AddNode(id, attrs)
    {
      nodes := nodes[id := (if id in nodes then nodes[id] else map[]) + attrs];
    }

    method AddEdge(u: NodeId, v: NodeId, relation: string)
      modifies this
      ensures Value() == old(Value()).AddEdge(u, v, relation)
    {
      if u !in nodes {
        nodes := nodes[u := map[]];
      }
      if v !in nodes {
        nodes := nodes[v := map[]];
      }
      edges := edges[(u, v) := relation];
    }
  }
}
