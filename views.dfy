/**
  The views the table hands to a classifier: `get_data_dataframes` (rows of
  one population, feature columns, `Infected` labels) and the pieces of
  `get_graph_nx` (the population-induced subgraph and the attribute names it
  carries).
*/
module Views {
  import opened DataTable
  import opened ContactGraph

  /** The rows kept by an optional population filter, in table order. */
  function RowsOf(order: seq<Id>, population: map<Id, Label>, only: Option<Label>): (r: seq<Id>)
    requires IdSet(order) <= population.Keys
    ensures forall v :: v in r <==> v in order && (only.None? || population[v] == only.value)
    decreases |order|
  {
    if order == [] then []
    else
      var n := |order| - 1;
      var v := order[n];
      assert IdSet(order[..n]) <= IdSet(order);
      var earlier := RowsOf(order[..n], population, only);
      assert forall x :: x in order <==> x in order[..n] || x == v by {
        assert order == order[..n] + [v];
      }
      if only.None? || population[v] == only.value then earlier + [v] else earlier
  }

  /** The kept rows are distinct. */
  lemma {:induction false} RowsOfDistinct(order: seq<Id>, population: map<Id, Label>, only: Option<Label>)
    requires IdSet(order) <= population.Keys && Distinct(order)
    ensures Distinct(RowsOf(order, population, only))
    decreases |order|
  {
    if order != [] {
      var n := |order| - 1;
      var v := order[n];
      var prefix := order[..n];
      assert IdSet(prefix) <= IdSet(order);
      assert Distinct(prefix);
      RowsOfDistinct(prefix, population, only);
      DistinctAppend(RowsOf(prefix, population, only), v);
    }
  }

  lemma DistinctAppend(s: seq<Id>, x: Id)
    requires Distinct(s) && x !in s
    ensures Distinct(s + [x])
  {
    forall i, j | 0 <= i < j < |s| + 1 ensures (s + [x])[i] != (s + [x])[j] {
      if j == |s| {
        assert (s + [x])[i] == s[i];
      }
    }
  }

  /** `idx` lists, in increasing order, positions of `order` that spell out `r`. */
  predicate PositionsIn(idx: seq<nat>, r: seq<Id>, order: seq<Id>)
  {
    && |idx| == |r|
    && (forall k :: 0 <= k < |idx| ==> idx[k] < |order| && order[idx[k]] == r[k])
    && (forall k, l :: 0 <= k < l < |idx| ==> idx[k] < idx[l])
  }

  /** The kept rows are a subsequence of the table's rows: filtering keeps their order. */
  lemma {:induction false} RowsOfInOrder(order: seq<Id>, population: map<Id, Label>, only: Option<Label>) returns (idx: seq<nat>)
    requires IdSet(order) <= population.Keys
    ensures PositionsIn(idx, RowsOf(order, population, only), order)
    decreases |order|
  {
    if order == [] {
      idx := [];
    } else {
      var n := |order| - 1;
      var prefix := order[..n];
      assert IdSet(prefix) <= IdSet(order);
      var earlier := RowsOfInOrder(prefix, population, only);
      if only.None? || population[order[n]] == only.value {
        idx := earlier + [n];
      } else {
        idx := earlier;
      }
    }
  }

  /** Without a population filter the kept rows are the whole index, in order. */
  lemma {:induction false} RowsOfAll(order: seq<Id>, population: map<Id, Label>)
    requires IdSet(order) <= population.Keys
    ensures RowsOf(order, population, None) == order
    decreases |order|
  {
    if order != [] {
      var n := |order| - 1;
      assert IdSet(order[..n]) <= IdSet(order);
      RowsOfAll(order[..n], population);
      assert order == order[..n] + [order[n]];
    }
  }

  /** A column restricted to some rows. */
  function Restrict(column: map<Id, Cell>, rows: set<Id>): (r: map<Id, Cell>)
    ensures r.Keys == column.Keys * rows
    ensures forall v :: v in r ==> r[v] == column[v]
  {
    map v | v in column && v in rows :: column[v]
  }

  /** What `get_data_dataframes` returns: the rows, the feature columns and the label column. */
  datatype DataView = DataView(rows: seq<Id>, features: map<string, map<Id, Cell>>, labels: map<Id, Cell>)

  /** The columns that are never features: bookkeeping and the label. */
  const NOT_FEATURES: set<string> := {POPULATION, CONNECTIONS, TRAIN, INFECTED}

  /** The feature columns kept: every non-bookkeeping column, cut down to the requested names if given. */
  function FeatureNames(t: Table, features: Option<seq<string>>): set<string>
  {
    var kept := ColumnNames(t) - NOT_FEATURES;
    if features.None? then kept else kept * (set f | f in features.value)
  }

  /**
    `get_data_dataframes(features, population=population)` without the `train`
    filter: `drop` needs the `Train` and `Infected` columns to exist.
  */
  function DataFrames(t: Table, features: Option<seq<string>>, population: Option<Label>): (r: DataView)
    requires WellFormed(t) && TRAIN in t.columns && INFECTED in t.columns
    ensures forall v :: v in r.rows <==> v in t.order && (population.None? || t.population[v] == population.value)
    ensures r.features.Keys == FeatureNames(t, features) && r.labels.Keys == IdSet(r.rows)
  {
    var rows := RowsOf(t.order, t.population, population);
    var keep := IdSet(rows);
    DataView(
      rows,
      map c | c in FeatureNames(t, features) :: Restrict(t.columns[c], keep),
      Restrict(t.columns[INFECTED], keep))
  }

  /** Every feature column and the labels hold the table's values on exactly the kept rows. */
  lemma DataFramesValues(t: Table, features: Option<seq<string>>, population: Option<Label>)
    requires WellFormed(t) && TRAIN in t.columns && INFECTED in t.columns
    ensures var r := DataFrames(t, features, population);
      forall c :: c in r.features ==> c in t.columns && r.features[c] == Restrict(t.columns[c], IdSet(r.rows))
    ensures var r := DataFrames(t, features, population);
      forall v :: v in r.labels ==> r.labels[v] == t.columns[INFECTED][v]
  {
  }

  /**
    The features exclude the bookkeeping columns and the label and are among
    the requested names; every requested column the table has is kept.
  */
  lemma FeatureSelection(t: Table, features: seq<string>, c: string)
    requires WellFormed(t) && TRAIN in t.columns && INFECTED in t.columns
    ensures c in DataFrames(t, Some(features), None).features <==>
      c in ColumnNames(t) && c !in NOT_FEATURES && c in features
  {
  }

  /** Every label row is a kept row, and it carries the row's `Infected` value. */
  lemma LabelsOfRows(t: Table, features: Option<seq<string>>, population: Label, v: Id)
    requires WellFormed(t) && TRAIN in t.columns && INFECTED in t.columns
    ensures var r := DataFrames(t, features, Some(population));
      v in r.labels <==> v in t.order && t.population[v] == population
    ensures var r := DataFrames(t, features, Some(population));
      v in r.labels ==> r.labels[v] == t.columns[INFECTED][v]
  {
    var r := DataFrames(t, features, Some(population));
    assert v in IdSet(r.rows) <==> v in r.rows;
  }

  /** The subgraph induced on the nodes of `keep`: other nodes and their edges removed. */
  function Induced(g: Graph, keep: set<Id>): (r: Graph)
    ensures r.Keys == g.Keys * keep
    ensures forall v :: Nbrs(r, v) == if v in keep then Nbrs(g, v) * keep else {}
  {
    map v | v in g && v in keep :: g[v] * keep
  }

  /** An induced subgraph of an undirected graph is undirected and has no edge leaving it. */
  lemma InducedUndirected(g: Graph, keep: set<Id>)
    requires Symmetric(g)
    ensures Symmetric(Induced(g, keep)) && Closed(Induced(g, keep))
  {
  }

  /**
    The attributes `get_graph_nx` attaches: the requested names that are table
    columns, less `Population`, `Connections` and `Train` (`Infected` stays).
  */
  function AttributeNames(t: Table, features: seq<string>): (r: set<string>)
    requires WellFormed(t)
    ensures forall c :: c in r <==> c in t.columns && c in features && c != TRAIN
  {
    (ColumnNames(t) * (set f | f in features)) - {POPULATION, CONNECTIONS, TRAIN}
  }

  /**
    `nx.set_node_attributes(G, values, name)`: every node of G that `values`
    has gets the attribute; the other nodes, and the ids of `values` that are
    not nodes, are left alone.
  */
  function SetNodeAttribute(attributes: map<Id, map<string, Cell>>, values: map<Id, Cell>, name: string): (r: map<Id, map<string, Cell>>)
    ensures r.Keys == attributes.Keys
    ensures forall v :: v in r && v in values ==> r[v] == attributes[v][name := values[v]]
    ensures forall v :: v in r && v !in values ==> r[v] == attributes[v]
  {
    map v | v in attributes :: if v in values then attributes[v][name := values[v]] else attributes[v]
  }

  /** The attributes of each node: the named columns that have a value for it. */
  function NodeAttributes(t: Table, names: set<string>, nodes: set<Id>): (r: map<Id, map<string, Cell>>)
    requires names <= t.columns.Keys
    ensures r.Keys == nodes
    ensures forall v, c :: v in r ==> (c in r[v] <==> c in names && v in t.columns[c])
    ensures forall v, c :: v in r && c in r[v] ==> r[v][c] == t.columns[c][v]
  {
    map v | v in nodes :: map c | c in names && v in t.columns[c] :: t.columns[c][v]
  }

  /** Attaching one more column to every node. */
  lemma AttachColumn(t: Table, names: set<string>, nodes: set<Id>, c: string)
    requires names <= t.columns.Keys && c in t.columns && c !in names
    ensures NodeAttributes(t, names + {c}, nodes) == SetNodeAttribute(NodeAttributes(t, names, nodes), t.columns[c], c)
  {
    var a, b := NodeAttributes(t, names + {c}, nodes), SetNodeAttribute(NodeAttributes(t, names, nodes), t.columns[c], c);
    forall v | v in a ensures a[v] == b[v] {
      assert a[v].Keys == b[v].Keys;
    }
  }
}
