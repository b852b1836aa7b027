/** The threshold filter: a copy of the graph without the edges whose weight
    is strictly below the threshold. Nodes are never removed. */
module Filters {
  import opened Results
  import opened Graphs

  /** `data['weight']` raises KeyError on an edge without a weight attribute. */
  datatype FilterError = MissingWeight

  predicate AllWeighted(g: Graph) {
    forall e | e in g.edges :: g.edges[e].Some?
  }

  /** Whether an edge of weight `w` survives threshold `t`: removal is on strict `<`, so a tie stays. */
  predicate Keeps(w: Weight, t: real) {
    w.Some? && w.value >= t
  }

  /** The graph the filter returns, or the KeyError it raises. */
  function Threshold(g: Graph, t: real): Result<Graph, FilterError> {
    if AllWeighted(g) then
      Ok(Graph(g.nodes, map e | e in g.edges && Keeps(g.edges[e], t) :: g.edges[e]))
    else
      Err(MissingWeight)
  }

  /** Filtering fails exactly when some edge has no weight; otherwise nodes stay as they were
      (same order), an edge survives exactly when its weight is not below the threshold,
      survivors keep their weight, and no edge is added. */
  lemma ThresholdSpec(g: Graph, t: real)
    ensures Threshold(g, t).Err? <==> exists e :: e in g.edges && g.edges[e].None?
    ensures Threshold(g, t).Ok? ==>
      var h := Threshold(g, t).value;
      && h.nodes == g.nodes
      && (forall e :: e in h.edges <==> e in g.edges && g.edges[e].value >= t)
      && (forall e | e in h.edges :: h.edges[e] == g.edges[e])
  {
  }

  /** An edge whose weight equals the threshold is kept. */
  lemma ThresholdKeepsTie(g: Graph, e: Edge)
    requires AllWeighted(g) && e in g.edges
    ensures e in Threshold(g, g.edges[e].value).value.edges
  {
  }

  /** Filtering a well-formed graph gives a well-formed graph. */
  lemma ThresholdWellFormed(g: Graph, t: real)
    requires WellFormed(g) && AllWeighted(g)
    ensures WellFormed(Threshold(g, t).value)
  {
  }

  /** Applying the same filter twice gives the graph of applying it once. */
  lemma {:induction false} ThresholdIdempotent(g: Graph, t: real)
    requires AllWeighted(g)
    ensures Threshold(g, t).Ok?
    ensures Threshold(Threshold(g, t).value, t) == Threshold(g, t)
  {
    var h := Threshold(g, t).value;
    assert AllWeighted(h);
    var h2 := Threshold(h, t).value;
    assert h2.edges == h.edges;
  }

  /** A higher threshold keeps a subset of the edges kept by a lower one. */
  lemma ThresholdMonotone(g: Graph, t1: real, t2: real)
    requires AllWeighted(g) && t1 <= t2
    ensures Threshold(g, t2).value.edges.Keys <= Threshold(g, t1).value.edges.Keys
  {
  }

  /** A threshold above every weight removes every edge; that is not an error and all nodes remain. */
  lemma ThresholdRemovesAll(g: Graph, t: real)
    requires AllWeighted(g)
    requires forall e | e in g.edges :: g.edges[e].value < t
    ensures Threshold(g, t) == Ok(Graph(g.nodes, map[]))
  {
    assert Threshold(g, t).value.edges == map[];
  }

  /** The edge map part-way through the filter loop: edges still to be examined are all present,
      examined ones only if they were kept. */
  function PartlyFiltered(edges: map<Edge, Weight>, remaining: set<Edge>, t: real): map<Edge, Weight> {
    map e | e in edges && (e in remaining || Keeps(edges[e], t)) :: edges[e]
  }

  lemma PartlyFilteredStart(edges: map<Edge, Weight>, t: real)
    ensures PartlyFiltered(edges, edges.Keys, t) == edges
  {
  }

  lemma PartlyFilteredStep(edges: map<Edge, Weight>, remaining: set<Edge>, t: real, e: Edge)
    requires e in remaining && e in edges
    ensures e in PartlyFiltered(edges, remaining, t) && PartlyFiltered(edges, remaining, t)[e] == edges[e]
    ensures Keeps(edges[e], t) ==> PartlyFiltered(edges, remaining - {e}, t) == PartlyFiltered(edges, remaining, t)
    ensures !Keeps(edges[e], t) ==> PartlyFiltered(edges, remaining - {e}, t) == PartlyFiltered(edges, remaining, t) - {e}
  {
  }

  /** Every edge already examined by the filter loop has a weight. */
  predicate WeightedExamined(edges: map<Edge, Weight>, remaining: set<Edge>) {
    forall e | e in edges && e !in remaining :: edges[e].Some?
  }

  lemma WeightedExaminedStep(edges: map<Edge, Weight>, remaining: set<Edge>, e: Edge)
    requires WeightedExamined(edges, remaining) && e in edges && edges[e].Some?
    ensures WeightedExamined(edges, remaining - {e})
  {
  }

  lemma PartlyFilteredDone(g: Graph, t: real)
    requires WeightedExamined(g.edges, {})
    ensures Threshold(g, t).Ok? && PartlyFiltered(g.edges, {}, t) == Threshold(g, t).value.edges
  {
  }

  class ThresholdFilter {
    const threshold: real

    constructor (threshold: real)
      ensures this.threshold == threshold
    {
      this.threshold := threshold;
    }

    /** `apply(graph)`: copies the graph and removes, edge by edge over a snapshot of the
        edges, every edge whose weight is below the threshold. The input graph is not modified. */
    method Apply(graph: DiGraph) returns (r: Result<DiGraph, FilterError>)
      requires graph.Valid()
      ensures unchanged(graph)
      ensures Threshold(graph.Model(), threshold).Err? ==> r == Err(MissingWeight)
      ensures Threshold(graph.Model(), threshold).Ok? ==>
        && r.Ok? && fresh(r.value) && r.value.Valid()
        && r.value.Model() == Threshold(graph.Model(), threshold).value
    {
      var filtered := graph.Copy();
      var weighted := RemoveBelowThreshold(filtered);
      if !weighted {
        return Err(MissingWeight);
      }
      r := Ok(filtered);
    }

    /** The loop of `apply`: over a snapshot of the edges, in any order, removes each edge whose
        weight is below the threshold; `weighted` is false where `data['weight']` raises KeyError. */
    method RemoveBelowThreshold(filtered: DiGraph) returns (weighted: bool)
      requires filtered.Valid()
      modifies filtered
      ensures filtered.Valid() && filtered.nodes == old(filtered.nodes)
      ensures weighted <==> AllWeighted(old(filtered.Model()))
      ensures weighted ==> filtered.edges == Threshold(old(filtered.Model()), threshold).value.edges
    {
      var g := filtered.Model();
      var remaining := g.edges.Keys;
      PartlyFilteredStart(g.edges, threshold);
      while remaining != {}
        invariant remaining <= g.edges.Keys
        invariant filtered.Valid() && filtered.nodes == g.nodes
        invariant WeightedExamined(g.edges, remaining)
        invariant filtered.edges == PartlyFiltered(g.edges, remaining, threshold)
        decreases remaining
      {
        var e :| e in remaining;
        PartlyFilteredStep(g.edges, remaining, threshold, e);
        var w := filtered.edges[e];
        if w.None? {
          assert !AllWeighted(g);
          return false;
        }
        WeightedExaminedStep(g.edges, remaining, e);
        if w.value < threshold {
          var _ := filtered.RemoveEdge(e.0, e.1);
        }
        remaining := remaining - {e};
      }
      PartlyFilteredDone(g, threshold);
      weighted := true;
    }
  }
}
