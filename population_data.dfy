/**
  The `PopulationData` object of utils_data/PopulationData.py: the individuals
  table (`data_df`) and the contact graph (`graph_nx`, absent until
  `encode_graph_nx`), and the `encode_*` steps that build the graph and add
  derived columns to the table.
*/
module Population {
  import opened DataTable
  import opened ContactGraph
  import opened Distance
  import opened NeighbourAggregate
  import opened IndexPatients
  import opened Views

  /** The graph `get_graph_nx` returns: adjacency and the attributes of each node. */
  datatype AttributedGraph = AttributedGraph(adjacency: Graph, attributes: map<Id, map<string, Cell>>)

  /** `encode_degrees`: every row's networkx degree. */
  function DegreeColumn(t: Table, g: Graph): (r: map<Id, Cell>)
    ensures r.Keys == Ids(t)
  {
    map v | v in Ids(t) :: Num(Degree(g, v) as real)
  }

  /** `encode_degree_centrality`: every row's networkx degree centrality. */
  function DegreeCentralityColumn(t: Table, g: Graph): (r: map<Id, Cell>)
    ensures r.Keys == Ids(t)
  {
    map v | v in Ids(t) :: Num(DegreeCentrality(g, v))
  }

  /**
    The degree written for a row counts the ids linked with it from either
    end, each once, and a row listing itself twice.
  */
  lemma DegreeColumnCounts(t: Table, v: Id)
    requires WellFormed(t) && v in t.order
    ensures DegreeColumn(t, Build(t.order, t.connections))[v]
         == Num((|DeclaredNeighbours(t.order, t.connections, v)| + (if Declares(t.order, t.connections, v, v) then 1 else 0)) as real)
  {
    DegreeOfBuild(t.order, t.connections, v);
  }

  /** Without self-references, every degree centrality written lies in [0, 1]. */
  lemma DegreeCentralityColumnBounded(t: Table, v: Id)
    requires WellFormed(t) && v in t.order
    requires forall a :: a in t.order ==> a !in t.connections[a]
    ensures DegreeCentralityColumn(t, Build(t.order, t.connections))[v].Num?
    ensures 0.0 <= DegreeCentralityColumn(t, Build(t.order, t.connections))[v].x <= 1.0
  {
    var g := Build(t.order, t.connections);
    BuildIsUndirected(t.order, t.connections);
    BuildNodes(t.order, t.connections);
    forall a ensures a !in Nbrs(g, a) {
      BuildAdjacency(t.order, t.connections, a, a);
    }
    CentralityInUnitInterval(g, v);
  }

  /**
    The `Distance_to_Index_Patient` column from the search result: `inf` for
    every row (line 106), then each reached row's distance (lines 107-108),
    cut down to the table's rows when assigned as a column.
  */
  lemma DistanceColumnOfSearch(ids: seq<Id>, d: map<Id, Cell>, reached: map<Id, nat>, g: Graph, sources: set<Id>)
    requires IsHopDistance(g, sources, reached)
    requires d.Keys == IdSet(ids) + reached.Keys
    requires forall v :: v in reached ==> d[v] == Num(reached[v] as real)
    requires forall v :: v in d && v !in reached ==> d[v] == Inf
    ensures IsDistanceColumn(map v | v in IdSet(ids) :: d[v], IdSet(ids), g, sources)
  {
    var column := map v | v in IdSet(ids) :: d[v];
    forall v, k: nat | v in column && HasDistance(g, sources, v, k) ensures column[v] == Num(k as real) {
      ReachableIffDistance(g, sources, v);
      DistanceUnique(g, sources, v, k, reached[v]);
    }
  }

  /** The inner loop of `encode_graph_nx`: an edge from a to each id of its list, in turn. */
  method ConnectRow(g: Graph, a: Id, cs: seq<Id>) returns (r: Graph)
    requires a in g
    ensures r == AddEdges(g, a, cs)
  {
    r := g;
    for j := 0 to |cs|
      invariant a in r && r == AddEdges(g, a, cs[..j])
    {
      assert cs[..j + 1][..j] == cs[..j];
      r := AddEdge(r, a, cs[j]);
    }
    assert cs[..|cs|] == cs;
  }

  /**
    Lines 105-108 of `encode_distance_to_index_patient`: the multi-source
    search, then `inf` for every row overwritten by each reached row's
    distance, cut down to the table's rows.
  */
  method DistanceColumn(order: seq<Id>, g: Graph, sources: set<Id>) returns (column: map<Id, Cell>)
    requires Closed(g)
    ensures IsDistanceColumn(column, IdSet(order), g, sources)
  {
    var reached := MultiSourceBfs(g, sources);
    var d := InfinityThenReached(order, reached);
    DistanceColumnOfSearch(order, d, reached, g, sources);
    column := map v | v in IdSet(order) :: d[v];
  }

  /**
    `encode_distance_to_index_patient` on a table and its graph: with at least
    one index patient, the table with the `Distance_to_Index_Patient` column;
    with none, `ok` is false (networkx refuses an empty source list) and the
    table is returned unchanged.
  */
  method WithDistanceColumn(t: Table, g: Graph) returns (ok: bool, r: Table)
    requires WellFormed(t) && INDEX_PATIENT in t.columns && g == Build(t.order, t.connections)
    ensures WellFormed(r) && r.order == t.order && r.connections == t.connections
    ensures ok == (IndexPatientIds(t) != {})
    ensures !ok ==> r == t
    ensures ok ==> DISTANCE_TO_INDEX_PATIENT in r.columns
    ensures ok ==> IsDistanceColumn(r.columns[DISTANCE_TO_INDEX_PATIENT], Ids(t), g, IndexPatientIds(t))
    ensures ok ==> r == t.(columns := t.columns[DISTANCE_TO_INDEX_PATIENT := r.columns[DISTANCE_TO_INDEX_PATIENT]])
  {
    ok := IndexPatientIds(t) != {};
    r := t;
    if ok {
      BuildIsUndirected(t.order, t.connections);
      var column := DistanceColumn(t.order, g, IndexPatientIds(t));
      r := WithColumn(t, DISTANCE_TO_INDEX_PATIENT, column);
    }
  }

  /** The loops of `encode_graph_nx`: each row id becomes a node, then is linked with its list. */
  method BuildGraph(order: seq<Id>, conns: map<Id, seq<Id>>) returns (g: Graph)
    requires IdSet(order) <= conns.Keys
    ensures g == Build(order, conns)
  {
    g := map[];
    for i := 0 to |order|
      invariant g == Build(order[..i], conns)
    {
      var a := order[i];
      assert order[..i + 1][..i] == order[..i];
      assert IdSet(order[..i]) <= IdSet(order[..i + 1]);
      g := AddNode(g, a);
      g := ConnectRow(g, a, conns[a]);
    }
    assert order[..|order|] == order;
  }

  /** The attribute loop of `get_graph_nx`: `set_node_attributes` once per name. */
  method AttachAttributes(t: Table, names: set<string>, nodes: set<Id>) returns (attributes: map<Id, map<string, Cell>>)
    requires names <= t.columns.Keys
    ensures attributes == NodeAttributes(t, names, nodes)
  {
    attributes := map v | v in nodes :: map[];
    var todo := names;
    while todo != {}
      invariant todo <= names
      invariant attributes == NodeAttributes(t, names - todo, nodes)
      decreases todo
    {
      ghost var w := Pick(todo);
      var c :| c in todo;
      AttachColumn(t, names - todo, nodes, c);
      attributes := SetNodeAttribute(attributes, t.columns[c], c);
      assert names - (todo - {c}) == (names - todo) + {c};
      todo := todo - {c};
    }
    assert names - todo == names;
  }

  class PopulationData {
    /** `data_df` */
    var table: Table
    /** `graph_nx`; `None` until `encode_graph_nx` has run */
    var graph: Option<Graph>

    /** The table is well formed and a built graph is the one its rows give. */
    ghost predicate Valid()
      reads this
    {
      WellFormed(table) && (graph.Some? ==> graph.value == Build(table.order, table.connections))
    }

    /** The object after loading a table, with connection lists already parsed. */
    constructor (t: Table)
      requires WellFormed(t)
      ensures Valid() && table == t && graph == None
    {
      table := t;
      graph := None;
    }

    /**
      `encode_graph_nx`: a fresh graph; each row id becomes a node, then gets
      an edge to every id of its connection list.
    */
    method EncodeGraph()
      requires Valid()
      modifies this
      ensures Valid() && table == old(table)
      ensures graph == Some(Build(table.order, table.connections))
    {
      var g := BuildGraph(table.order, table.connections);
      graph := Some(g);
    }

    /** `encode_degrees`: the `Degrees` column. */
    method EncodeDegrees()
      requires Valid() && graph.Some?
      modifies this
      ensures Valid() && graph == old(graph)
      ensures table == WithColumn(old(table), DEGREES, DegreeColumn(old(table), graph.value))
    {
      table := WithColumn(table, DEGREES, DegreeColumn(table, graph.value));
    }

    /** `encode_degree_centrality`: the `Degree_Centrality` column. */
    method EncodeDegreeCentrality()
      requires Valid() && graph.Some?
      modifies this
      ensures Valid() && graph == old(graph)
      ensures table == WithColumn(old(table), DEGREE_CENTRALITY, DegreeCentralityColumn(old(table), graph.value))
    {
      table := WithColumn(table, DEGREE_CENTRALITY, DegreeCentralityColumn(table, graph.value));
    }

    /**
      `encode_connected_index_patient`: the `Connected_Index_Patient` column;
      `ok` is false, and nothing changes, when the table has no rows (the
      `ValueError` of assigning pandas' empty `apply` result) or a row's
      population has no index patient (the `KeyError`).
    */
    method EncodeConnectedIndexPatient() returns (ok: bool)
      requires Valid() && INDEX_PATIENT in table.columns
      modifies this
      ensures Valid() && graph == old(graph)
      ensures ok == ConnectedIndexPatientColumn(old(table)).Some?
      ensures ok ==> table == WithColumn(old(table), CONNECTED_INDEX_PATIENT, ConnectedIndexPatientColumn(old(table)).value)
      ensures !ok ==> table == old(table)
    {
      var column := ConnectedIndexPatientColumn(table);
      ok := column.Some?;
      if ok {
        table := WithColumn(table, CONNECTED_INDEX_PATIENT, column.value);
      }
    }

    /**
      `encode_distance_to_index_patient`: the `Distance_to_Index_Patient`
      column, the hop distance of each row from the nearest index patient and
      `inf` where none reaches it. `ok` is false, and nothing changes, when
      there is no index patient at all (networkx refuses an empty source list).
    */
    method EncodeDistanceToIndexPatient() returns (ok: bool)
      requires Valid() && graph.Some? && INDEX_PATIENT in table.columns
      modifies this
      ensures Valid() && graph == old(graph)
      ensures ok == (IndexPatientIds(old(table)) != {})
      ensures !ok ==> table == old(table)
      ensures ok ==> DISTANCE_TO_INDEX_PATIENT in table.columns
      ensures ok ==> IsDistanceColumn(table.columns[DISTANCE_TO_INDEX_PATIENT], Ids(old(table)), graph.value, IndexPatientIds(old(table)))
      ensures ok ==> table == old(table).(columns := old(table).columns[DISTANCE_TO_INDEX_PATIENT := table.columns[DISTANCE_TO_INDEX_PATIENT]])
    {
      ok, table := WithDistanceColumn(table, graph.value);
    }

    /**
      One of the eleven `encode_sum_neighbor_*` / `encode_mean_neighbor_*`
      steps: the feature's column; `ok` is false, and nothing changes, when a
      row lists an id the source column does not have.
    */
    method EncodeNeighbourFeature(f: NeighbourFeature) returns (ok: bool)
      requires Valid() && Source(f) in table.columns
      modifies this
      ensures Valid() && graph == old(graph)
      ensures ok == FeatureColumn(old(table), f).Some?
      ensures ok ==> table == WithColumn(old(table), Target(f), FeatureColumn(old(table), f).value)
      ensures !ok ==> table == old(table)
    {
      var column := FeatureColumn(table, f);
      ok := column.Some?;
      if ok {
        table := WithColumn(table, Target(f), column.value);
      }
    }

    /**
      `get_graph_nx(features, population)`: a copy of the graph, cut down to
      the nodes of the population when one is given, each node carrying the
      requested table columns. The object itself is not changed.
    */
    method GetGraph(features: seq<string>, population: Option<Label>) returns (out: AttributedGraph)
      requires Valid() && graph.Some?
      requires population.Some? ==> graph.value.Keys <= Ids(table)
      ensures population.None? ==> out.adjacency == graph.value
      ensures population.Some? ==> out.adjacency.Keys == set v | v in graph.value && table.population[v] == population.value
      ensures forall u, v :: u in Nbrs(out.adjacency, v) <==> u in Nbrs(graph.value, v) && v in out.adjacency && u in out.adjacency
      ensures out.attributes == NodeAttributes(table, AttributeNames(table, features), out.adjacency.Keys)
    {
      var g := graph.value;
      BuildIsUndirected(table.order, table.connections);
      var adjacency := g;
      if population.Some? {
        var keep := set v | v in g && table.population[v] == population.value;
        adjacency := Induced(g, keep);
      }
      var attributes := AttachAttributes(table, AttributeNames(table, features), adjacency.Keys);
      out := AttributedGraph(adjacency, attributes);
    }
  }
}
