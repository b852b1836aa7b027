/** The part of a networkx `DiGraph` that the graph pipeline relies on: nodes
    kept in insertion order, and directed edges that carry an optional
    "weight" attribute. Adding a node twice keeps its first position; adding
    an edge adds its missing endpoints and overwrites its weight. */
module Graphs {
  import opened Results

  /** Nodes are intent labels, not cluster indices. */
  type Label = string
  type Edge = (Label, Label)
  /** The "weight" attribute of an edge; None when the edge has none. */
  type Weight = Option<real>

  /** The abstract value of a graph: its node list in iteration order and its edge map. */
  datatype Graph = Graph(nodes: seq<Label>, edges: map<Edge, Weight>)

  predicate NoDuplicates<T(==)>(s: seq<T>) {
    forall i, j | 0 <= i < j < |s| :: s[i] != s[j]
  }

  /** What networkx maintains for every graph: each node once, and both ends of every edge are nodes. */
  predicate WellFormed(g: Graph) {
    && NoDuplicates(g.nodes)
    && forall e | e in g.edges :: e.0 in g.nodes && e.1 in g.nodes
  }

  /** The node list after `add_node(n)`: unchanged if `n` is present, else `n` at the end. */
  function AppendNew(nodes: seq<Label>, n: Label): (r: seq<Label>)
    ensures forall x :: x in r <==> x in nodes || x == n
    ensures NoDuplicates(nodes) ==> NoDuplicates(r)
    ensures |nodes| <= |r| && r[..|nodes|] == nodes
  {
    if n in nodes then nodes else nodes + [n]
  }

  class DiGraph {
    var nodes: seq<Label>
    var edges: map<Edge, Weight>

    function Model(): Graph
      reads this
    {
      Graph(nodes, edges)
    }

    ghost predicate Valid()
      reads this
    {
      WellFormed(Model())
    }

    /** `nx.DiGraph()`: the empty graph. */
    constructor ()
      ensures Valid() && nodes == [] && edges == map[]
    {
      nodes := [];
      edges := map[];
    }

    /** `add_node(n)`. */
    method AddNode(n: Label)
      requires Valid()
      modifies this
      ensures Valid()
      ensures nodes == AppendNew(old(nodes), n) && edges == old(edges)
    {
      nodes := AppendNew(nodes, n);
    }

    /** `add_edge(u, v, weight=w)`: adds the endpoints that are missing and sets the weight,
        replacing the weight of an existing edge. */
    method AddEdge(u: Label, v: Label, w: real)
      requires Valid()
      modifies this
      ensures Valid()
      ensures nodes == AppendNew(AppendNew(old(nodes), u), v)
      ensures edges == old(edges)[(u, v) := Some(w)]
    {
      nodes := AppendNew(AppendNew(nodes, u), v);
      edges := edges[(u, v) := Some(w)];
    }

    /** `remove_edge(u, v)`: `removed` is false where networkx raises NetworkXError
        (no such edge), and then nothing changes. */
    method RemoveEdge(u: Label, v: Label) returns (removed: bool)
      requires Valid()
      modifies this
      ensures Valid()
      ensures removed <==> (u, v) in old(edges)
      ensures nodes == old(nodes) && edges == old(edges) - {(u, v)}
    {
      removed := (u, v) in edges;
      edges := edges - {(u, v)};
    }

    /** `copy()`: a fresh graph with the same nodes, in the same order, and the same edges. */
    method Copy() returns (g: DiGraph)
      requires Valid()
      ensures fresh(g) && g.Valid() && g.Model() == Model()
    {
      g := new DiGraph();
      g.nodes := nodes;
      g.edges := edges;
    }
  }
}
