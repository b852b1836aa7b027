/** The graph processor: builds a weighted directed graph over intent labels from a
    transition matrix and a cluster-index-to-label map, filters it, and re-derives the
    matrix and the label map from a graph. */
module Processor {
  import opened Results
  import opened Graphs
  import opened Filters

  type Matrix = seq<seq<real>>

  /** `intent_by_cluster`: a Python dict from cluster index to intent label, given as its
      (key, label) items in insertion order. A dict never repeats a key. */
  type LabelMap = seq<(int, Label)>

  predicate DistinctKeys(labels: LabelMap) {
    forall i, j | 0 <= i < j < |labels| :: labels[i].0 != labels[j].0
  }

  predicate DistinctLabels(labels: LabelMap) {
    forall i, j | 0 <= i < j < |labels| :: labels[i].1 != labels[j].1
  }

  /** `intent_by_cluster.values()`, in insertion order. */
  function Values(labels: LabelMap): seq<Label> {
    seq(|labels|, k requires 0 <= k < |labels| => labels[k].1)
  }

  /** The dict `{idx: label for idx, label in enumerate(ls)}`. */
  function Enumerate(ls: seq<Label>): LabelMap {
    seq(|ls|, k requires 0 <= k < |ls| => (k, ls[k]))
  }

  /** `intent_by_cluster[key]`; None where Python raises KeyError. */
  function Lookup(labels: LabelMap, key: int): Option<Label> {
    if labels == [] then None
    else if labels[0].0 == key then Some(labels[0].1)
    else Lookup(labels[1..], key)
  }

  /** `transition_matrix[i]` with Python's indexing: a negative index counts from the end;
      None where Python raises IndexError. */
  function Row(matrix: Matrix, i: int): Option<seq<real>> {
    if 0 <= i < |matrix| then Some(matrix[i])
    else if -|matrix| <= i < 0 then Some(matrix[|matrix| + i])
    else None
  }

  /** The two ways `_construct_graph` can raise. */
  datatype BuildError =
    | RowIndexError(key: int)     // IndexError: the matrix has no row for this key
    | LabelKeyError(column: int)  // KeyError: a row has a column with no label

  /** The edges after the inner loop of `_construct_graph` has run over `row`, starting
      from `edges`: one `add_edge(from, label[j], weight=row[j])` per column j, in order. */
  function RowEdges(edges: map<Edge, Weight>, from: Label, row: seq<real>, labels: LabelMap)
    : Result<map<Edge, Weight>, BuildError>
    decreases |row|
  {
    if row == [] then Ok(edges)
    else
      var j := |row| - 1;
      match RowEdges(edges, from, row[..j], labels)
      case Err(e) => Err(e)
      case Ok(es) =>
        match Lookup(labels, j)
        case None => Err(LabelKeyError(j))
        case Some(to) => Ok(es[(from, to) := Some(row[j])])
  }

  /** The edges after the outer loop of `_construct_graph` has run over `items`. */
  function AllEdges(items: LabelMap, matrix: Matrix, labels: LabelMap): Result<map<Edge, Weight>, BuildError>
    decreases |items|
  {
    if items == [] then Ok(map[])
    else
      var k := |items| - 1;
      match AllEdges(items[..k], matrix, labels)
      case Err(e) => Err(e)
      case Ok(es) =>
        match Row(matrix, items[k].0)
        case None => Err(RowIndexError(items[k].0))
        case Some(row) => RowEdges(es, items[k].1, row, labels)
  }

  /** The node list after `add_node` has been called on each of `ls` in order. */
  function AddNodes(ls: seq<Label>): seq<Label> {
    if ls == [] then [] else AppendNew(AddNodes(ls[..|ls| - 1]), ls[|ls| - 1])
  }

  /** The graph `_construct_graph` returns, or the error it raises. */
  function Build(matrix: Matrix, labels: LabelMap): Result<Graph, BuildError> {
    match AllEdges(labels, matrix, labels)
    case Err(e) => Err(e)
    case Ok(es) => Ok(Graph(AddNodes(Values(labels)), es))
  }

  /** The extracted cell for nodes i and j: the edge's weight, 0.0 for an edge without
      a weight attribute, and 0.0 where there is no edge. */
  function Cell(g: Graph, i: nat, j: nat): real
    requires i < |g.nodes| && j < |g.nodes|
  {
    var e := (g.nodes[i], g.nodes[j]);
    if e in g.edges then g.edges[e].GetOr(0.0) else 0.0
  }

  /** What `extract_intent_and_matrix_from_graph` returns: the label map `idx -> node` in
      node order, and the M x M matrix of edge weights over that indexing. */
  function Extract(g: Graph): (LabelMap, Matrix) {
    var n := |g.nodes|;
    (Enumerate(g.nodes),
     seq(n, i requires 0 <= i < n => seq(n, j requires 0 <= j < n => Cell(g, i, j))))
  }

  /** The position of a node in the node list. */
  function IndexOf(nodes: seq<Label>, n: Label): (i: nat)
    requires n in nodes
    ensures i < |nodes| && nodes[i] == n
  {
    if nodes[0] == n then 0 else 1 + IndexOf(nodes[1..], n)
  }

  /** `m` with every entry below `t` replaced by 0.0. */
  function ZeroBelow(m: Matrix, t: real): Matrix {
    seq(|m|, i requires 0 <= i < |m| =>
      seq(|m[i]|, j requires 0 <= j < |m[i]| => if m[i][j] >= t then m[i][j] else 0.0))
  }

  predicate IsSquare(m: Matrix, n: nat) {
    |m| == n && forall i | 0 <= i < n :: |m[i]| == n
  }

  // ---------------------------------------------------------------------------
  // Lookups

  lemma {:induction false} LookupFound(labels: LabelMap, k: int)
    requires DistinctKeys(labels) && 0 <= k < |labels|
    ensures Lookup(labels, labels[k].0) == Some(labels[k].1)
  {
    if k > 0 {
      assert labels[0].0 != labels[k].0;
      assert labels[1..][k - 1] == labels[k];
      LookupFound(labels[1..], k - 1);
    }
  }

  /** A lookup succeeds exactly when some item has the key, and then yields one of the labels. */
  lemma {:induction false} LookupSpec(labels: LabelMap, key: int)
    ensures Lookup(labels, key).None? <==> forall k | 0 <= k < |labels| :: labels[k].0 != key
    ensures Lookup(labels, key).Some? ==> Lookup(labels, key).value in Values(labels)
  {
    if labels != [] {
      assert Values(labels) == [labels[0].1] + Values(labels[1..]);
      if labels[0].0 != key {
        LookupSpec(labels[1..], key);
        assert forall k | 1 <= k < |labels| :: labels[k] == labels[1..][k - 1];
      }
    }
  }

  /** With distinct keys and distinct labels, no two keys look up the same label. */
  lemma LookupInjective(labels: LabelMap, j1: int, j2: int)
    requires DistinctKeys(labels) && DistinctLabels(labels)
    requires Lookup(labels, j1).Some? && Lookup(labels, j1) == Lookup(labels, j2)
    ensures j1 == j2
  {
    var k1 := LookupIndex(labels, j1);
    var k2 := LookupIndex(labels, j2);
    assert labels[k1].1 == labels[k2].1;
  }

  lemma LookupIndex(labels: LabelMap, key: int) returns (k: nat)
    requires DistinctKeys(labels) && Lookup(labels, key).Some?
    ensures k < |labels| && labels[k] == (key, Lookup(labels, key).value)
  {
    LookupSpec(labels, key);
    k :| 0 <= k < |labels| && labels[k].0 == key;
    LookupFound(labels, k);
  }

  lemma LookupEnumerate(ls: seq<Label>, j: int)
    ensures Lookup(Enumerate(ls), j) == if 0 <= j < |ls| then Some(ls[j]) else None
  {
    LookupSpec(Enumerate(ls), j);
    if 0 <= j < |ls| {
      LookupFound(Enumerate(ls), j);
    }
  }

  // ---------------------------------------------------------------------------
  // Nodes

  /** Adding each label as a node keeps exactly one copy of every label. */
  lemma {:induction false} AddNodesSpec(ls: seq<Label>)
    ensures NoDuplicates(AddNodes(ls))
    ensures forall x :: x in AddNodes(ls) <==> x in ls
  {
    if ls != [] {
      var n := |ls| - 1;
      var prefix := ls[..n];
      AddNodesSpec(prefix);
      assert ls == prefix + [ls[n]];
    }
  }

  /** A list without repetitions is its repetition-free prefix followed by a new last entry. */
  lemma DropLast(ls: seq<Label>)
    requires NoDuplicates(ls) && ls != []
    ensures NoDuplicates(ls[..|ls| - 1]) && ls[|ls| - 1] !in ls[..|ls| - 1]
    ensures ls == ls[..|ls| - 1] + [ls[|ls| - 1]]
  {
    var n := |ls| - 1;
    var prefix := ls[..n];
    forall i, j | 0 <= i < j < |prefix| ensures prefix[i] != prefix[j] {
      assert prefix[i] == ls[i] && prefix[j] == ls[j];
    }
    forall i | 0 <= i < n ensures prefix[i] != ls[n] {
      assert prefix[i] == ls[i];
    }
  }

  /** Labels that are already distinct become the node list unchanged, in the same order. */
  lemma {:induction false} AddNodesDistinct(ls: seq<Label>)
    requires NoDuplicates(ls)
    ensures AddNodes(ls) == ls
  {
    if ls != [] {
      var n := |ls| - 1;
      var prefix := ls[..n];
      DropLast(ls);
      AddNodesDistinct(prefix);
    }
  }

  // ---------------------------------------------------------------------------
  // Edges: when construction succeeds

  /** Every column of `row` has a label. */
  predicate ColumnsLabelled(row: seq<real>, labels: LabelMap) {
    forall j | 0 <= j < |row| :: Lookup(labels, j).Some?
  }

  /** The inner loop succeeds exactly when every column of the row has a label, and otherwise
      fails with the KeyError of a column that has none. */
  lemma {:induction false} RowEdgesSucceeds(edges: map<Edge, Weight>, from: Label, row: seq<real>, labels: LabelMap)
    ensures RowEdges(edges, from, row, labels).Ok? <==> ColumnsLabelled(row, labels)
    ensures RowEdges(edges, from, row, labels).Err? ==>
      exists j :: 0 <= j < |row| && Lookup(labels, j).None? && RowEdges(edges, from, row, labels) == Err(LabelKeyError(j))
  {
    if row != [] {
      var n := |row| - 1;
      RowEdgesSucceeds(edges, from, row[..n], labels);
      var r := RowEdges(edges, from, row, labels);
      if RowEdges(edges, from, row[..n], labels).Err? {
        var j :| 0 <= j < n && Lookup(labels, j).None? && RowEdges(edges, from, row[..n], labels) == Err(LabelKeyError(j));
        assert r == Err(LabelKeyError(j));
      } else if Lookup(labels, n).None? {
        assert r == Err(LabelKeyError(n));
      } else {
        assert r.Ok?;
      }
    }
  }

  /** Some column of `row` has label `v`. */
  predicate IsColumnLabel(row: seq<real>, labels: LabelMap, v: Label) {
    exists j :: 0 <= j < |row| && Lookup(labels, j) == Some(v)
  }

  /** The inner loop only adds edges out of `from`, towards labels of its columns, and leaves
      every edge out of another node as it was. */
  lemma {:induction false} RowEdgesFrame(edges: map<Edge, Weight>, from: Label, row: seq<real>, labels: LabelMap)
    requires RowEdges(edges, from, row, labels).Ok?
    ensures var es := RowEdges(edges, from, row, labels).value;
      && edges.Keys <= es.Keys
      && (forall e | e in es && e !in edges :: e.0 == from && IsColumnLabel(row, labels, e.1))
      && (forall e | e in edges && e.0 != from :: es[e] == edges[e])
  {
    if row != [] {
      var n := |row| - 1;
      RowEdgesFrame(edges, from, row[..n], labels);
      var es0 := RowEdges(edges, from, row[..n], labels).value;
      var to := Lookup(labels, n).value;
      var es := RowEdges(edges, from, row, labels).value;
      assert es == es0[(from, to) := Some(row[n])];
      forall e | e in es && e !in edges
        ensures e.0 == from && IsColumnLabel(row, labels, e.1)
      {
        if e in es0 {
          assert IsColumnLabel(row[..n], labels, e.1);
          var j :| 0 <= j < n && Lookup(labels, j) == Some(e.1);
        } else {
          assert e == (from, to);
        }
      }
    }
  }

  /** Every column j of `row` has a label, and `edges` has the edge from `from` to that label
      with weight `row[j]`. */
  predicate RowWritten(edges: map<Edge, Weight>, from: Label, row: seq<real>, labels: LabelMap) {
    forall j | 0 <= j < |row| ::
      && Lookup(labels, j).Some?
      && (from, Lookup(labels, j).value) in edges
      && edges[(from, Lookup(labels, j).value)] == Some(row[j])
  }

  /** When no two columns of the row name the same label, each column's edge carries exactly
      that column's weight. */
  lemma {:induction false} RowEdgesWeights(edges: map<Edge, Weight>, from: Label, row: seq<real>, labels: LabelMap)
    requires RowEdges(edges, from, row, labels).Ok?
    requires DistinctKeys(labels) && DistinctLabels(labels)
    ensures RowWritten(RowEdges(edges, from, row, labels).value, from, row, labels)
  {
    if row != [] {
      var n := |row| - 1;
      RowEdgesWeights(edges, from, row[..n], labels);
      var es0 := RowEdges(edges, from, row[..n], labels).value;
      var es := RowEdges(edges, from, row, labels).value;
      assert es == es0[(from, Lookup(labels, n).value) := Some(row[n])];
      forall j | 0 <= j < n
        ensures Lookup(labels, j) != Lookup(labels, n)
      {
        if Lookup(labels, j) == Lookup(labels, n) {
          LookupInjective(labels, j, n);
        }
      }
    }
  }

  /** Every edge built so far leaves from the label of a processed item and enters a label of the map. */
  lemma {:induction false} AllEdgesEndpoints(items: LabelMap, matrix: Matrix, labels: LabelMap)
    requires AllEdges(items, matrix, labels).Ok?
    ensures forall e | e in AllEdges(items, matrix, labels).value :: e.0 in Values(items) && e.1 in Values(labels)
  {
    if items != [] {
      var k := |items| - 1;
      AllEdgesEndpoints(items[..k], matrix, labels);
      var es := AllEdges(items[..k], matrix, labels).value;
      var row := Row(matrix, items[k].0).value;
      RowEdgesFrame(es, items[k].1, row, labels);
      forall e | e in AllEdges(items, matrix, labels).value
        ensures e.0 in Values(items) && e.1 in Values(labels)
      {
        if e in es {
          assert e.0 in Values(items[..k]);
          var i :| 0 <= i < k && Values(items[..k])[i] == e.0;
          assert items[..k][i] == items[i];
          assert Values(items)[i] == e.0;
        } else {
          var j :| 0 <= j < |row| && Lookup(labels, j) == Some(e.1);
          LookupSpec(labels, j);
          assert Values(items)[k] == e.0;
        }
      }
    }
  }

  /** With distinct labels, the edge from item k's label to column j's label carries the weight
      in row k, column j, for every item processed. */
  lemma {:induction false} AllEdgesWeights(items: LabelMap, matrix: Matrix, labels: LabelMap)
    requires AllEdges(items, matrix, labels).Ok?
    requires DistinctKeys(labels) && DistinctLabels(labels) && DistinctLabels(items)
    ensures forall k | 0 <= k < |items| ::
      && Row(matrix, items[k].0).Some?
      && RowWritten(AllEdges(items, matrix, labels).value, items[k].1, Row(matrix, items[k].0).value, labels)
  {
    if items != [] {
      var n := |items| - 1;
      var prefix := items[..n];
      assert DistinctLabels(prefix);
      AllEdgesWeights(prefix, matrix, labels);
      var es0 := AllEdges(prefix, matrix, labels).value;
      var row := Row(matrix, items[n].0).value;
      var es := AllEdges(items, matrix, labels).value;
      assert es == RowEdges(es0, items[n].1, row, labels).value;
      RowEdgesFrame(es0, items[n].1, row, labels);
      RowEdgesWeights(es0, items[n].1, row, labels);
      forall k | 0 <= k < n
        ensures Row(matrix, items[k].0).Some?
        ensures RowWritten(es, items[k].1, Row(matrix, items[k].0).value, labels)
      {
        assert prefix[k] == items[k];
        assert items[k].1 != items[n].1;
      }
    }
  }

  /** Once a prefix of the items fails, the whole construction fails with that error. */
  lemma {:induction false} AllEdgesErrPersists(items: LabelMap, matrix: Matrix, labels: LabelMap, n: nat)
    requires n <= |items| && AllEdges(items[..n], matrix, labels).Err?
    ensures AllEdges(items, matrix, labels) == AllEdges(items[..n], matrix, labels)
    decreases |items| - n
  {
    if n < |items| {
      var m := |items| - 1;
      assert items[..m][..n] == items[..n];
      AllEdgesErrPersists(items[..m], matrix, labels, n);
    } else {
      assert items[..n] == items;
    }
  }

  lemma {:induction false} RowEdgesErrPersists(edges: map<Edge, Weight>, from: Label, row: seq<real>, labels: LabelMap, n: nat)
    requires n <= |row| && RowEdges(edges, from, row[..n], labels).Err?
    ensures RowEdges(edges, from, row, labels) == RowEdges(edges, from, row[..n], labels)
    decreases |row| - n
  {
    if n < |row| {
      var m := |row| - 1;
      assert row[..m][..n] == row[..n];
      RowEdgesErrPersists(edges, from, row[..m], labels, n);
    } else {
      assert row[..n] == row;
    }
  }

  /** One more item of the outer loop: its row's IndexError, or the inner loop over its row. */
  lemma AllEdgesStep(items: LabelMap, matrix: Matrix, labels: LabelMap, k: nat, edges: map<Edge, Weight>)
    requires k < |items| && AllEdges(items[..k], matrix, labels) == Ok(edges)
    ensures Row(matrix, items[k].0).None? ==> AllEdges(items[..k + 1], matrix, labels) == Err(RowIndexError(items[k].0))
    ensures Row(matrix, items[k].0).Some? ==>
      AllEdges(items[..k + 1], matrix, labels) == RowEdges(edges, items[k].1, Row(matrix, items[k].0).value, labels)
  {
    assert items[..k + 1][..k] == items[..k] && items[..k + 1][k] == items[k];
  }

  /** One more column of the inner loop: its KeyError, or the edge to its label. */
  lemma RowEdgesStep(edges: map<Edge, Weight>, from: Label, row: seq<real>, labels: LabelMap, j: nat, es: map<Edge, Weight>)
    requires j < |row| && RowEdges(edges, from, row[..j], labels) == Ok(es)
    ensures Lookup(labels, j).None? ==> RowEdges(edges, from, row[..j + 1], labels) == Err(LabelKeyError(j))
    ensures Lookup(labels, j).Some? ==>
      RowEdges(edges, from, row[..j + 1], labels) == Ok(es[(from, Lookup(labels, j).value) := Some(row[j])])
  {
    assert row[..j + 1][..j] == row[..j] && row[..j + 1][j] == row[j];
  }

  /** Every item's key names a row of the matrix, and every column of those rows has a label. */
  predicate RowsResolve(items: LabelMap, matrix: Matrix, labels: LabelMap) {
    forall k | 0 <= k < |items| ::
      Row(matrix, items[k].0).Some? && ColumnsLabelled(Row(matrix, items[k].0).value, labels)
  }

  /** Construction of the edges succeeds exactly when the rows resolve; a failure is the
      IndexError of an item's key or the KeyError of a column without a label. */
  lemma {:induction false} AllEdgesSucceeds(items: LabelMap, matrix: Matrix, labels: LabelMap)
    ensures AllEdges(items, matrix, labels).Ok? <==> RowsResolve(items, matrix, labels)
    ensures AllEdges(items, matrix, labels).Err? ==>
      var err := AllEdges(items, matrix, labels).error;
      && (err.RowIndexError? ==> exists k :: 0 <= k < |items| && items[k].0 == err.key && Row(matrix, err.key).None?)
      && (err.LabelKeyError? ==> Lookup(labels, err.column).None?)
  {
    if items != [] {
      var n := |items| - 1;
      var prefix := items[..n];
      AllEdgesSucceeds(prefix, matrix, labels);
      assert forall k | 0 <= k < n :: prefix[k] == items[k];
      if AllEdges(prefix, matrix, labels).Ok? && Row(matrix, items[n].0).Some? {
        var es0 := AllEdges(prefix, matrix, labels).value;
        RowEdgesSucceeds(es0, items[n].1, Row(matrix, items[n].0).value, labels);
      } else if AllEdges(prefix, matrix, labels).Err? {
        if AllEdges(prefix, matrix, labels).error.RowIndexError? {
          var key := AllEdges(prefix, matrix, labels).error.key;
          var k :| 0 <= k < n && prefix[k].0 == key && Row(matrix, key).None?;
          assert items[k].0 == key;
        }
      }
    }
  }

  /** Every edge the inner loop adds carries a weight. */
  lemma {:induction false} RowEdgesWeighted(edges: map<Edge, Weight>, from: Label, row: seq<real>, labels: LabelMap)
    requires RowEdges(edges, from, row, labels).Ok?
    requires forall e | e in edges :: edges[e].Some?
    ensures var es := RowEdges(edges, from, row, labels).value; forall e | e in es :: es[e].Some?
  {
    if row != [] {
      RowEdgesWeighted(edges, from, row[..|row| - 1], labels);
    }
  }

  /** Every edge the outer loop adds carries a weight. */
  lemma {:induction false} AllEdgesWeighted(items: LabelMap, matrix: Matrix, labels: LabelMap)
    requires AllEdges(items, matrix, labels).Ok?
    ensures var es := AllEdges(items, matrix, labels).value; forall e | e in es :: es[e].Some?
  {
    if items != [] {
      var k := |items| - 1;
      AllEdgesWeighted(items[..k], matrix, labels);
      RowEdgesWeighted(AllEdges(items[..k], matrix, labels).value, items[k].1, Row(matrix, items[k].0).value, labels);
    }
  }

  // ---------------------------------------------------------------------------
  // Properties of the constructed graph

  /** Every label becomes a node, once, in first-occurrence order, whether or not an edge
      touches it; the nodes are the labels themselves, in order, when these are distinct. */
  lemma BuildNodes(matrix: Matrix, labels: LabelMap)
    requires Build(matrix, labels).Ok?
    ensures var g := Build(matrix, labels).value;
      && NoDuplicates(g.nodes)
      && (forall x :: x in g.nodes <==> x in Values(labels))
      && (DistinctLabels(labels) ==> g.nodes == Values(labels))
  {
    AddNodesSpec(Values(labels));
    if DistinctLabels(labels) {
      AddNodesDistinct(Values(labels));
    }
  }

  /** The constructed graph is a well-formed graph: both ends of every edge are nodes. */
  lemma BuildWellFormed(matrix: Matrix, labels: LabelMap)
    requires Build(matrix, labels).Ok?
    ensures WellFormed(Build(matrix, labels).value)
  {
    AddNodesSpec(Values(labels));
    AllEdgesEndpoints(labels, matrix, labels);
  }

  /** Construction fails exactly when some key has no row in the matrix (IndexError) or some
      column of a row has no label (KeyError): a column index without a label is never
      skipped or padded. */
  lemma BuildFails(matrix: Matrix, labels: LabelMap)
    ensures Build(matrix, labels).Err? <==> !RowsResolve(labels, matrix, labels)
    ensures Build(matrix, labels).Err? ==>
      var err := Build(matrix, labels).error;
      && (err.RowIndexError? ==> exists k :: 0 <= k < |labels| && labels[k].0 == err.key && Row(matrix, err.key).None?)
      && (err.LabelKeyError? ==> Lookup(labels, err.column).None?)
  {
    AllEdgesSucceeds(labels, matrix, labels);
  }

  /** Every edge of the constructed graph has a weight, so the threshold filter never fails on it. */
  lemma BuildWeighted(matrix: Matrix, labels: LabelMap)
    requires Build(matrix, labels).Ok?
    ensures AllWeighted(Build(matrix, labels).value)
  {
    AllEdgesWeighted(labels, matrix, labels);
  }

  /** With distinct labels, for every key and every column of its row, the graph has the
      edge from the key's label to the column's label, weighted with exactly that entry. */
  lemma BuildEdges(matrix: Matrix, labels: LabelMap)
    requires Build(matrix, labels).Ok?
    requires DistinctKeys(labels) && DistinctLabels(labels)
    ensures forall k | 0 <= k < |labels| ::
      && Row(matrix, labels[k].0).Some?
      && RowWritten(Build(matrix, labels).value.edges, labels[k].1, Row(matrix, labels[k].0).value, labels)
  {
    AllEdgesWeights(labels, matrix, labels);
  }

  /** Labels keyed 0..N-1 in order: their values are the labels, and key j looks up label j. */
  lemma EnumerateFacts(ls: seq<Label>)
    ensures Values(Enumerate(ls)) == ls
    ensures DistinctKeys(Enumerate(ls))
    ensures NoDuplicates(ls) ==> DistinctLabels(Enumerate(ls))
    ensures forall j | 0 <= j < |ls| :: Lookup(Enumerate(ls), j) == Some(ls[j])
  {
    forall j | 0 <= j < |ls| ensures Lookup(Enumerate(ls), j) == Some(ls[j]) {
      LookupEnumerate(ls, j);
    }
  }

  /** A square N x N matrix with labels keyed 0..N-1 in order, all distinct, is built without
      error, and its nodes are the labels in order. */
  lemma BuildSquare(matrix: Matrix, ls: seq<Label>)
    requires NoDuplicates(ls) && IsSquare(matrix, |ls|)
    ensures Build(matrix, Enumerate(ls)).Ok?
    ensures Build(matrix, Enumerate(ls)).value.nodes == ls
  {
    var labels := Enumerate(ls);
    EnumerateFacts(ls);
    assert RowsResolve(labels, matrix, labels) by {
      forall k | 0 <= k < |labels|
        ensures Row(matrix, labels[k].0).Some? && ColumnsLabelled(Row(matrix, labels[k].0).value, labels)
      {
        assert Row(matrix, labels[k].0) == Some(matrix[k]);
      }
    }
    AllEdgesSucceeds(labels, matrix, labels);
    BuildNodes(matrix, labels);
  }

  /** Under the same conditions the edge between labels i and j carries entry (i, j),
      zero weights included. */
  lemma BuildSquareCell(matrix: Matrix, ls: seq<Label>, i: nat, j: nat)
    requires NoDuplicates(ls) && IsSquare(matrix, |ls|) && i < |ls| && j < |ls|
    ensures Build(matrix, Enumerate(ls)).Ok?
    ensures var g := Build(matrix, Enumerate(ls)).value;
      (ls[i], ls[j]) in g.edges && g.edges[(ls[i], ls[j])] == Some(matrix[i][j])
  {
    var labels := Enumerate(ls);
    BuildSquare(matrix, ls);
    EnumerateFacts(ls);
    BuildEdges(matrix, labels);
    var g := Build(matrix, labels).value;
    assert labels[i] == (i, ls[i]);
    assert Row(matrix, i) == Some(matrix[i]);
    assert RowWritten(g.edges, ls[i], matrix[i], labels);
    assert Lookup(labels, j) == Some(ls[j]);
  }

  /** Under the same conditions the graph is dense: its edges are exactly the N * N ordered
      pairs of labels. */
  lemma BuildDense(matrix: Matrix, ls: seq<Label>)
    requires NoDuplicates(ls) && IsSquare(matrix, |ls|)
    ensures Build(matrix, Enumerate(ls)).Ok?
    ensures forall u, v :: (u, v) in Build(matrix, Enumerate(ls)).value.edges <==> u in ls && v in ls
  {
    BuildSquare(matrix, ls);
    BuildWellFormed(matrix, Enumerate(ls));
    var g := Build(matrix, Enumerate(ls)).value;
    forall u, v | u in ls && v in ls
      ensures (u, v) in g.edges
    {
      var i :| 0 <= i < |ls| && ls[i] == u;
      var j :| 0 <= j < |ls| && ls[j] == v;
      BuildSquareCell(matrix, ls, i, j);
    }
  }

  /** All ordered pairs drawn from `a` and `b`. */
  function Pairs(a: set<Label>, b: set<Label>): set<Edge> {
    set u, v | u in a && v in b :: (u, v)
  }

  /** The pairs whose first component is `x`. */
  lemma {:induction false} PairsRowCount(x: Label, b: set<Label>)
    ensures |Pairs({x}, b)| == |b|
    decreases b
  {
    if b != {} {
      var y :| y in b;
      PairsRowCount(x, b - {y});
      assert Pairs({x}, b) == Pairs({x}, b - {y}) + {(x, y)};
    } else {
      assert Pairs({x}, b) == {};
    }
  }

  /** The pairs from `a` are those whose first component is `x` and, apart from them, those from `a - {x}`. */
  lemma PairsSplit(a: set<Label>, b: set<Label>, x: Label)
    requires x in a
    ensures |Pairs(a, b)| == |Pairs(a - {x}, b)| + |Pairs({x}, b)|
  {
    assert Pairs(a, b) == Pairs(a - {x}, b) + Pairs({x}, b);
    assert Pairs(a - {x}, b) !! Pairs({x}, b);
  }

  /** There are |a| * |b| ordered pairs. */
  lemma {:induction false} PairsCount(a: set<Label>, b: set<Label>)
    ensures |Pairs(a, b)| == |a| * |b|
    decreases a
  {
    if a != {} {
      var x :| x in a;
      PairsCount(a - {x}, b);
      PairsRowCount(x, b);
      PairsSplit(a, b, x);
      var k := |a - {x}|;
      assert |a| == k + 1;
      assert |a| * |b| == k * |b| + |b|;
    } else {
      assert Pairs(a, b) == {};
    }
  }

  /** The elements of a list with one more entry at the end. */
  lemma ElementsAppend(ls: seq<Label>, y: Label)
    ensures (set x | x in ls + [y]) == (set x | x in ls) + {y}
  {
  }

  /** A list without repetitions has as many distinct elements as entries. */
  lemma {:induction false} DistinctCount(ls: seq<Label>)
    requires NoDuplicates(ls)
    ensures |set x | x in ls| == |ls|
  {
    if ls != [] {
      var n := |ls| - 1;
      var prefix := ls[..n];
      DropLast(ls);
      DistinctCount(prefix);
      ElementsAppend(prefix, ls[n]);
    }
  }

  /** Zero weights make edges too: N distinct labels over an N x N matrix give N * N edges. */
  lemma BuildEdgeCount(matrix: Matrix, ls: seq<Label>)
    requires NoDuplicates(ls) && IsSquare(matrix, |ls|)
    ensures Build(matrix, Enumerate(ls)).Ok?
    ensures |Build(matrix, Enumerate(ls)).value.edges| == |ls| * |ls|
  {
    BuildDense(matrix, ls);
    var edges := Build(matrix, Enumerate(ls)).value.edges;
    var names := set x | x in ls;
    forall e ensures e in edges.Keys <==> e in Pairs(names, names) {
      assert e == (e.0, e.1);
    }
    assert edges.Keys == Pairs(names, names);
    PairsCount(names, names);
    DistinctCount(ls);
  }

  // ---------------------------------------------------------------------------
  // Properties of extraction

  /** Extraction gives every edge's weight (0.0 for an edge without one) at the cell of its
      endpoints' indices, and 0.0 at every cell without an edge; labels are indexed 0..M-1. */
  lemma ExtractCells(g: Graph)
    requires WellFormed(g)
    ensures var (labels, m) := Extract(g);
      && labels == Enumerate(g.nodes)
      && IsSquare(m, |g.nodes|)
      && (forall e | e in g.edges :: m[IndexOf(g.nodes, e.0)][IndexOf(g.nodes, e.1)] == g.edges[e].GetOr(0.0))
      && (forall i, j | 0 <= i < |g.nodes| && 0 <= j < |g.nodes| && m[i][j] != 0.0 :: (g.nodes[i], g.nodes[j]) in g.edges)
  {
  }

  /** Round trip: a square N x N matrix with labels keyed 0..N-1 in order and all distinct is
      rebuilt exactly, with the same label map, by extracting from the graph built from it. */
  lemma RoundTrip(matrix: Matrix, ls: seq<Label>)
    requires NoDuplicates(ls) && IsSquare(matrix, |ls|)
    ensures Build(matrix, Enumerate(ls)).Ok?
    ensures Extract(Build(matrix, Enumerate(ls)).value) == (Enumerate(ls), matrix)
  {
    BuildSquare(matrix, ls);
    var g := Build(matrix, Enumerate(ls)).value;
    var m := Extract(g).1;
    forall i | 0 <= i < |ls| ensures m[i] == matrix[i] {
      forall j | 0 <= j < |ls| ensures m[i][j] == matrix[i][j] {
        BuildSquareCell(matrix, ls, i, j);
      }
    }
    assert m == matrix;
  }

  /** Extracting after the threshold filter gives the same label map and the extracted
      matrix with every entry below the threshold set to 0.0. */
  lemma ExtractAfterThreshold(g: Graph, t: real)
    requires WellFormed(g) && AllWeighted(g)
    ensures Threshold(g, t).Ok?
    ensures Extract(Threshold(g, t).value) == (Extract(g).0, ZeroBelow(Extract(g).1, t))
  {
    var h := Threshold(g, t).value;
    var m := Extract(g).1;
    var mh := Extract(h).1;
    var z := ZeroBelow(m, t);
    assert |mh| == |z|;
    assert h.nodes == g.nodes;
    forall i | 0 <= i < |g.nodes| ensures mh[i] == z[i] {
      assert |z[i]| == |m[i]| == |g.nodes|;
      forall j | 0 <= j < |g.nodes| ensures mh[i][j] == z[i][j] {
        var e := (g.nodes[i], g.nodes[j]);
        assert mh[i][j] == Cell(h, i, j) && m[i][j] == Cell(g, i, j);
        if e in g.edges {
          assert g.edges[e].Some?;
        }
      }
    }
    assert mh == z;
  }

  /** The whole pipeline on a well-shaped input: building, filtering at `t` and extracting
      gives back the label map and the matrix with the entries below `t` zeroed. */
  lemma PipelineZeroesBelowThreshold(matrix: Matrix, ls: seq<Label>, t: real)
    requires NoDuplicates(ls) && IsSquare(matrix, |ls|)
    ensures Build(matrix, Enumerate(ls)).Ok?
    ensures Threshold(Build(matrix, Enumerate(ls)).value, t).Ok?
    ensures Extract(Threshold(Build(matrix, Enumerate(ls)).value, t).value) == (Enumerate(ls), ZeroBelow(matrix, t))
  {
    RoundTrip(matrix, ls);
    var g := Build(matrix, Enumerate(ls)).value;
    BuildWellFormed(matrix, Enumerate(ls));
    BuildWeighted(matrix, Enumerate(ls));
    ExtractAfterThreshold(g, t);
  }

  // ---------------------------------------------------------------------------
  // The processor object

  /** The matrix extraction has produced once the edges in `done` have been written. */
  function Partial(g: Graph, done: set<Edge>): Matrix {
    var n := |g.nodes|;
    seq(n, i requires 0 <= i < n => seq(n, j requires 0 <= j < n =>
      if (g.nodes[i], g.nodes[j]) in done then Cell(g, i, j) else 0.0))
  }

  lemma PartialStart(g: Graph)
    ensures Partial(g, {}) == seq(|g.nodes|, _ => seq(|g.nodes|, _ => 0.0))
  {
    var n := |g.nodes|;
    var p := Partial(g, {});
    var z := seq(n, _ => seq(n, _ => 0.0));
    forall i | 0 <= i < n ensures p[i] == z[i] {
      assert |p[i]| == |z[i]| == n;
    }
  }

  lemma PartialDone(g: Graph)
    ensures Partial(g, g.edges.Keys) == Extract(g).1
  {
    var n := |g.nodes|;
    var p := Partial(g, g.edges.Keys);
    var m := Extract(g).1;
    forall i | 0 <= i < n ensures p[i] == m[i] {
      assert |p[i]| == |m[i]| == n;
    }
  }

  /** Writing the weight of edge `e` (0.0 when it has none) at the cell of its endpoints'
      indices moves it into `done`. */
  lemma PartialStep(g: Graph, done: set<Edge>, e: Edge, i: nat, j: nat)
    requires NoDuplicates(g.nodes) && e in g.edges
    requires i < |g.nodes| && j < |g.nodes| && g.nodes[i] == e.0 && g.nodes[j] == e.1
    ensures var m := Partial(g, done);
      Partial(g, done + {e}) == m[i := m[i][j := g.edges[e].GetOr(0.0)]]
  {
    var m := Partial(g, done);
    var m' := m[i := m[i][j := g.edges[e].GetOr(0.0)]];
    var p := Partial(g, done + {e});
    forall a | 0 <= a < |g.nodes| ensures p[a] == m'[a] {
      forall b | 0 <= b < |g.nodes| ensures p[a][b] == m'[a][b] {
        if (g.nodes[a], g.nodes[b]) == e {
          assert a == i && b == j;
        }
      }
    }
  }

  /** `{node: idx for idx, node in enumerate(nodes)}`: with no repeated node, each node maps to
      its position and nothing else is a key. */
  function IndexMap(nodes: seq<Label>): (index: map<Label, int>)
    requires NoDuplicates(nodes)
    ensures forall x :: x in index <==> x in nodes
    ensures forall x | x in index :: 0 <= index[x] < |nodes| && nodes[index[x]] == x
  {
    var index := map k | 0 <= k < |nodes| :: nodes[k] := k;
    assert forall x | x in nodes :: x in index by {
      forall x | x in nodes ensures x in index {
        var k := IndexOf(nodes, x);
        assert nodes[k] in index;
      }
    }
    index
  }

  /** Moving `e` out of the edges still to visit adds it to the edges visited. */
  lemma DoneGrows(all: set<Edge>, remaining: set<Edge>, e: Edge)
    requires remaining <= all && e in remaining
    ensures (all - remaining) + {e} == all - (remaining - {e})
  {
  }

  /** One pass of the extraction loop: writing the weight of `e` at the cell of its endpoints
      moves it from the edges still to visit to the edges written. */
  lemma ExtractStep(g: Graph, remaining: set<Edge>, e: Edge, i: nat, j: nat)
    requires NoDuplicates(g.nodes) && remaining <= g.edges.Keys && e in remaining
    requires i < |g.nodes| && j < |g.nodes| && g.nodes[i] == e.0 && g.nodes[j] == e.1
    ensures var m := Partial(g, g.edges.Keys - remaining);
      Partial(g, g.edges.Keys - (remaining - {e})) == m[i := m[i][j := g.edges[e].GetOr(0.0)]]
  {
    PartialStep(g, g.edges.Keys - remaining, e, i, j);
    DoneGrows(g.edges.Keys, remaining, e);
  }

  class GraphProcessor {
    var transitionMatrix: Matrix
    var intentByCluster: LabelMap
    var graph: DiGraph

    ghost predicate Valid()
      reads this, graph
    {
      graph.Valid()
    }

    constructor Init(transitionMatrix: Matrix, intentByCluster: LabelMap, graph: DiGraph)
      ensures this.transitionMatrix == transitionMatrix
      ensures this.intentByCluster == intentByCluster
      ensures this.graph == graph
    {
      this.transitionMatrix := transitionMatrix;
      this.intentByCluster := intentByCluster;
      this.graph := graph;
    }

    /** `GraphProcessor(transition_matrix, intent_by_cluster)`: stores both and builds the
        graph; the error is the one construction raises. */
    static method Create(transitionMatrix: Matrix, intentByCluster: LabelMap) returns (r: Result<GraphProcessor, BuildError>)
      requires DistinctKeys(intentByCluster)
      ensures Build(transitionMatrix, intentByCluster).Err? ==> r == Err(Build(transitionMatrix, intentByCluster).error)
      ensures Build(transitionMatrix, intentByCluster).Ok? ==>
        && r.Ok? && fresh(r.value) && fresh(r.value.graph) && r.value.Valid()
        && r.value.transitionMatrix == transitionMatrix
        && r.value.intentByCluster == intentByCluster
        && r.value.graph.Model() == Build(transitionMatrix, intentByCluster).value
    {
      var built := ConstructGraph(transitionMatrix, intentByCluster);
      if built.Err? {
        return Err(built.error);
      }
      var p := new GraphProcessor.Init(transitionMatrix, intentByCluster, built.value);
      r := Ok(p);
    }

    /** `_construct_graph`: adds every label as a node, then for each item `(i, from)` and each
        column j of row i, the edge from `from` to the label of j with weight `row[j]`. */
    static method ConstructGraph(transitionMatrix: Matrix, intentByCluster: LabelMap) returns (r: Result<DiGraph, BuildError>)
      requires DistinctKeys(intentByCluster)
      ensures Build(transitionMatrix, intentByCluster).Err? ==> r == Err(Build(transitionMatrix, intentByCluster).error)
      ensures Build(transitionMatrix, intentByCluster).Ok? ==>
        && r.Ok? && fresh(r.value) && r.value.Valid()
        && r.value.Model() == Build(transitionMatrix, intentByCluster).value
    {
      var labels := intentByCluster;
      var values := Values(labels);
      var graph := AddLabelNodes(values);
      AddNodesSpec(values);
      assert labels[..0] == [];

      var k := 0;
      while k < |labels|
        invariant 0 <= k <= |labels|
        invariant fresh(graph) && graph.Valid()
        invariant graph.nodes == AddNodes(values)
        invariant forall x | x in values :: x in graph.nodes
        invariant AllEdges(labels[..k], transitionMatrix, labels) == Ok(graph.edges)
      {
        var key := labels[k].0;
        var from := labels[k].1;
        AllEdgesStep(labels, transitionMatrix, labels, k, graph.edges);
        var row := Row(transitionMatrix, key);
        if row.None? {
          AllEdgesErrPersists(labels, transitionMatrix, labels, k + 1);
          return Err(RowIndexError(key));
        }
        assert values[k] == from;
        var err := AddRowEdges(graph, from, row.value, labels);
        if err.Some? {
          AllEdgesErrPersists(labels, transitionMatrix, labels, k + 1);
          return Err(err.value);
        }
        k := k + 1;
      }
      assert labels[..k] == labels;
      r := Ok(graph);
    }

    /** The first loop of `_construct_graph`: a new graph with `add_node` called on each label. */
    static method AddLabelNodes(values: seq<Label>) returns (graph: DiGraph)
      ensures fresh(graph) && graph.Valid()
      ensures graph.nodes == AddNodes(values) && graph.edges == map[]
    {
      graph := new DiGraph();
      var k := 0;
      while k < |values|
        invariant 0 <= k <= |values|
        invariant fresh(graph) && graph.Valid()
        invariant graph.nodes == AddNodes(values[..k]) && graph.edges == map[]
      {
        assert values[..k + 1][..k] == values[..k];
        graph.AddNode(values[k]);
        k := k + 1;
      }
      assert values[..k] == values;
    }

    /** The inner loop of `_construct_graph`: one `add_edge(from, label[j], weight=row[j])` per
        column j, stopping at the first column without a label. The endpoints are already nodes. */
    static method AddRowEdges(graph: DiGraph, from: Label, row: seq<real>, labels: LabelMap) returns (err: Option<BuildError>)
      requires graph.Valid() && from in graph.nodes
      requires forall x | x in Values(labels) :: x in graph.nodes
      modifies graph
      ensures graph.Valid() && graph.nodes == old(graph.nodes)
      ensures RowEdges(old(graph.edges), from, row, labels) == if err.None? then Ok(graph.edges) else Err(err.value)
    {
      var j := 0;
      while j < |row|
        invariant 0 <= j <= |row|
        invariant graph.Valid() && graph.nodes == old(graph.nodes)
        invariant RowEdges(old(graph.edges), from, row[..j], labels) == Ok(graph.edges)
      {
        RowEdgesStep(old(graph.edges), from, row, labels, j, graph.edges);
        var to := Lookup(labels, j);
        if to.None? {
          RowEdgesErrPersists(old(graph.edges), from, row, labels, j + 1);
          return Some(LabelKeyError(j));
        }
        LookupSpec(labels, j);
        graph.AddEdge(from, to.value, row[j]);
        j := j + 1;
      }
      assert row[..j] == row;
      err := None;
    }

    /** `extract_intent_and_matrix_from_graph`: indexes the nodes in order, then writes each
        edge's weight (0.0 when it has none) at the cell of its endpoints into a zero matrix. */
    static method ExtractIntentAndMatrix(graph: DiGraph) returns (intentByCluster: LabelMap, transitionMatrix: Matrix)
      requires graph.Valid()
      ensures (intentByCluster, transitionMatrix) == Extract(graph.Model())
    {
      var g := graph.Model();
      var size := |g.nodes|;
      var nodeToIndex := IndexMap(g.nodes);
      intentByCluster := Enumerate(g.nodes);
      transitionMatrix := seq(size, _ => seq(size, _ => 0.0));
      PartialStart(g);
      transitionMatrix := WriteEdgeWeights(g, nodeToIndex, transitionMatrix);
      PartialDone(g);
    }

    /** The loop of `extract_intent_and_matrix_from_graph` over the edges, in any order: each
        edge's weight (0.0 when it has none) goes to the cell of its endpoints' indices. */
    static method WriteEdgeWeights(g: Graph, nodeToIndex: map<Label, int>, zero: Matrix) returns (m: Matrix)
      requires WellFormed(g) && zero == Partial(g, {})
      requires forall x | x in g.nodes :: x in nodeToIndex && 0 <= nodeToIndex[x] < |g.nodes| && g.nodes[nodeToIndex[x]] == x
      ensures m == Partial(g, g.edges.Keys)
    {
      m := zero;
      var remaining := g.edges.Keys;
      assert g.edges.Keys - remaining == {};
      while remaining != {}
        invariant remaining <= g.edges.Keys
        invariant m == Partial(g, g.edges.Keys - remaining)
        decreases remaining
      {
        var e :| e in remaining;
        var i := nodeToIndex[e.0];
        var j := nodeToIndex[e.1];
        ExtractStep(g, remaining, e, i, j);
        m := m[i := m[i][j := g.edges[e].GetOr(0.0)]];
        remaining := remaining - {e};
      }
      assert g.edges.Keys - remaining == g.edges.Keys;
    }

    /** `filter_graph(filter_strategy)`: applies the filter to the graph; on success the
        filtered graph replaces the graph and the label map and matrix are re-extracted from
        it; on the filter's error nothing changes. */
    method FilterGraph(filter: ThresholdFilter) returns (r: Result<DiGraph, FilterError>)
      requires Valid()
      modifies this
      ensures unchanged(old(graph))
      ensures r.Ok? <==> Threshold(old(graph.Model()), filter.threshold).Ok?
      ensures r.Err? ==> r == Err(MissingWeight) && unchanged(this)
      ensures r.Ok? ==>
        && graph == r.value && fresh(graph) && Valid()
        && graph.Model() == Threshold(old(graph.Model()), filter.threshold).value
        && (intentByCluster, transitionMatrix) == Extract(graph.Model())
    {
      var newGraph := filter.Apply(graph);
      if newGraph.Err? {
        return newGraph;
      }
      intentByCluster, transitionMatrix := ExtractIntentAndMatrix(newGraph.value);
      graph := newGraph.value;
      r := Ok(graph);
    }
  }
}
