# PopulationData — a Dafny model

This project models the `PopulationData` class of `utils_data/PopulationData.py`.
The class holds a table of individuals (`data_df`) and, once built, a contact
graph (`graph_nx`). Each row of the table has an id, a `Population` label, an
`Index_Patient` flag, numeric attributes (`Age`, `Constitution`, `Behaviour`,
`Infected`, `Train`, ...) and a `Connections` list of other ids. The
`encode_*` steps do three things:

- build an undirected `nx.Graph` from the connection lists;
- add derived columns to the table: degree, degree centrality, connected index
  patient, hop distance to the nearest index patient, and eleven sums or means
  over each row's connection list;
- give views of the result: the feature and label frames of
  `get_data_dataframes`, and the attributed, population-induced graph of
  `get_graph_nx`.

Layout, one module per file:

- `table.dfy` (`DataTable`): the table as a value. The index is a sequence of
  distinct ids. `Population` and `Connections` are typed maps. Every other
  column is a map from id to `Cell`, and a `Cell` is a real, `inf` or NaN.
  Assigning a column is `WithColumn`.
- `graph.dfy` (`ContactGraph`): the graph as adjacency sets, `map<Id, set<Id>>`.
  `Build` is what `encode_graph_nx` builds, with `nx.Graph` semantics: adding an
  edge twice changes nothing, unknown ids become nodes, and self-loops are kept.
  This file also has the networkx degree and degree centrality.
- `distance.dfy` (`Distance`): hop distance from a set of sources, defined by
  the balls `Ball(k)` of nodes within `k` edges. It has a multi-source
  breadth-first search proved against that definition, and the `inf`-then-overwrite
  loop of lines 106-108.
- `aggregate.dfy` (`NeighbourAggregate`): `np.sum` and `np.mean` over the cells
  gathered from a raw connection list, and the eleven neighbour features.
- `index_patient.dfy` (`IndexPatients`): the population → index patient
  dictionary of `dict(zip(...))`, and the `Connected_Index_Patient` column.
- `views.dfy` (`Views`): `get_data_dataframes`, the induced subgraph, and node
  attributes.
- `population_data.dfy` (`Population`): the `PopulationData` class itself. Its
  fields `table` and `graph` are updated by the `encode_*` methods. It also has
  the loops the class runs: building the graph, the distance column, and
  attaching node attributes.

A `KeyError` or `ValueError` that depends on the data becomes a failure result
(`None`, or `ok == false`), and the object is left unchanged. A failure caused
by calling methods in the wrong order (a column or the graph missing) becomes a
precondition.

Policies of the code that a reader may not expect, which the model keeps:

- A row that lists itself gets a self-loop. networkx counts a self-loop twice
  in the degree. No drop policy is applied.
- Degree centrality is 1 for every node of a graph with at most one node. This
  is networkx's rule.
- Neighbour sums and means run over the raw `Connections` list. A repeated id
  counts each time it appears. A link listed only by the other end does not
  count. The graph's neighbour set is not used.
- `np.mean` of an empty list is NaN.
- `encode_distance_to_index_patient` with no index patient at all fails:
  networkx refuses an empty source list. It does not give every row `inf`.
- `encode_connected_index_patient` on a table with no rows fails. pandas'
  `apply` on an empty frame calls the lookup once on a row of NaN, which raises
  `KeyError`. `apply` then returns the whole empty frame, and assigning a
  multi-column frame to one column raises `ValueError`. It does not produce an
  empty column.

## Model

| member | source | states |
|---|---|---|
| Population.PopulationData.constructor | utils_data/PopulationData.py:19-21 | The object starts with the loaded table and no graph (`graph_nx = None`). |
| Population.PopulationData.EncodeGraph | utils_data/PopulationData.py:69-75 | `graph_nx` becomes the graph the rows give and the table is unchanged; the graph's properties are the `Build*` lemmas. |
| ContactGraph.Build | utils_data/PopulationData.py:70-74 | The definition of the graph `encode_graph_nx` builds: row by row, `add_node` of the id, then `add_edge` to each listed id. Its properties are stated by `BuildNodes`, `BuildAdjacency`, `BuildIsUndirected` and `BuildIgnoresRepetition`. |
| Population.BuildGraph | utils_data/PopulationData.py:70-74 | The outer loop (`add_node` for each row, then its edges) ends with exactly the graph `Build` defines for the whole table. |
| Population.ConnectRow | utils_data/PopulationData.py:73-74 | The inner loop adds an edge from the row to each listed id, in list order, giving `AddEdges`. |
| ContactGraph.AddEdgesNbrs | utils_data/PopulationData.py:73-74 | After the edges of row a, a's neighbours gain every listed id, each listed id gains a, and no other adjacency changes. |
| ContactGraph.BuildNodes | utils_data/PopulationData.py:71-74 | The nodes are exactly the table ids plus every id mentioned in some connection list. |
| ContactGraph.MentionedIff | utils_data/PopulationData.py:73-74 | An id is mentioned exactly when some row's connection list contains it. |
| ContactGraph.BuildAdjacency | utils_data/PopulationData.py:71-74 | b is adjacent to a exactly when a's row lists b or b's row lists a. |
| ContactGraph.BuildIsUndirected | utils_data/PopulationData.py:70-74 | The built graph is symmetric, and every neighbour is a node. |
| ContactGraph.BuildIgnoresRepetition | utils_data/PopulationData.py:73-74 | Two tables whose rows list the same sets of ids build the same graph: duplicate and mutual entries give one edge. |
| ContactGraph.NodesOfSameSets | utils_data/PopulationData.py:73-74 | Listing the same sets of ids gives the same node set. |
| ContactGraph.NbrsOfSameSets | utils_data/PopulationData.py:73-74 | Listing the same sets of ids gives every node the same neighbours. |
| ContactGraph.Degree | utils_data/PopulationData.py:78 | The definition of networkx's degree: the number of distinct neighbours, with a self-loop counted twice. Its properties are stated by `DegreeOfBuild` and `DegreeBound`. |
| ContactGraph.DegreeCentrality | utils_data/PopulationData.py:84 | The definition of `nx.degree_centrality`: degree / (n - 1), and 1 for each node of a graph with at most one node. Its range is stated by `CentralityInUnitInterval`. |
| ContactGraph.DegreeOfBuild | utils_data/PopulationData.py:78 | A node's degree is the number of distinct ids linked with it from either end, plus one more when its own row lists it. |
| ContactGraph.DegreeBound | utils_data/PopulationData.py:78 | In a loop-free graph whose neighbours are nodes, a degree is at most the number of other nodes. |
| ContactGraph.CentralityInUnitInterval | utils_data/PopulationData.py:84 | In a loop-free graph, degree centrality lies in [0, 1]. |
| Population.DegreeColumn | utils_data/PopulationData.py:78-80 | The definition of the `Degrees` column: one entry per table row, holding that row's degree. Its values are stated by `DegreeColumnCounts`. |
| Population.DegreeCentralityColumn | utils_data/PopulationData.py:84-86 | The definition of the `Degree_Centrality` column: one entry per table row, holding that row's centrality. Its range is stated by `DegreeCentralityColumnBounded`. |
| Population.PopulationData.EncodeDegrees | utils_data/PopulationData.py:77-80 | The table gains the `Degrees` column, one value per row; every other column and the graph are unchanged. |
| Population.DegreeColumnCounts | utils_data/PopulationData.py:78-80 | The degree written for a row counts the ids linked with it in either direction once each, and a self-reference twice. |
| Population.PopulationData.EncodeDegreeCentrality | utils_data/PopulationData.py:83-87 | The table gains the `Degree_Centrality` column, one value per row; everything else is unchanged. |
| Population.DegreeCentralityColumnBounded | utils_data/PopulationData.py:84-86 | When no row lists itself, every written centrality is a number in [0, 1]. |
| IndexPatients.IndexPatientIds | utils_data/PopulationData.py:104 | The sources are exactly the table rows flagged `Index_Patient == 1`. |
| IndexPatients.IndexPatientByPopulation | utils_data/PopulationData.py:96-97 | The definition of the population → index patient dictionary: the index-patient rows in table order, each writing its population's entry. Its meaning is stated by `ByPopulationIsLast`. |
| IndexPatients.ByPopulationIsLast | utils_data/PopulationData.py:96-97 | A population has an entry exactly when it has an index patient, and the entry is its last index patient in table order. |
| IndexPatients.ConnectedIndexPatientFails | utils_data/PopulationData.py:98-100 | The column fails exactly when the table has no rows (pandas' empty `apply` result cannot be assigned to one column: `ValueError`) or some row's population has no index patient (`KeyError`). |
| IndexPatients.ConnectedIndexPatientOfRow | utils_data/PopulationData.py:95-100 | When it succeeds, each row holds the id of an index patient of its own population, the last one in table order. |
| IndexPatients.ConnectedIndexPatientColumn | utils_data/PopulationData.py:98-100 | When it succeeds, the column has one entry per row. |
| Population.PopulationData.EncodeConnectedIndexPatient | utils_data/PopulationData.py:95-101 | `ok` is true exactly when the table has rows and every row's population has an index patient. Then the table gains that column; otherwise nothing changes. |
| Distance.MultiSourceBfs | utils_data/PopulationData.py:105 | The reached nodes are exactly those reachable from some index patient, and each is mapped to its least hop count. |
| Distance.InfinityThenReached | utils_data/PopulationData.py:106-108 | Every table id starts at `inf`; each reached node is overwritten with its distance, and a reached node that is not a table id is added. |
| Population.DistanceColumn | utils_data/PopulationData.py:105-109 | The column has exactly the table ids: `inf` for unreachable ids, otherwise the hop distance. |
| Population.DistanceColumnOfSearch | utils_data/PopulationData.py:106-109 | Overwriting `inf` with the search result and restricting to the table's rows gives the distance column. |
| Population.WithDistanceColumn | utils_data/PopulationData.py:104-109 | `ok` is true exactly when some row is an index patient. Then the table gains the distance column and every other part of it is unchanged; otherwise the table is returned as it was. |
| Population.PopulationData.EncodeDistanceToIndexPatient | utils_data/PopulationData.py:103-110 | `ok` is true exactly when some row is an index patient; then the table gains the distance column and nothing else changes; otherwise nothing changes. |
| Distance.DistanceColumnCell | utils_data/PopulationData.py:104-109 | In the column, an index patient holds 0, `inf` appears exactly on unreachable ids, and any other value is that id's hop distance. |
| Distance.DistanceColumnNeighbours | utils_data/PopulationData.py:105-108 | Adjacent ids are both `inf` or both finite; finite values differ by at most one. |
| Distance.SourceAtZero | utils_data/PopulationData.py:104-105 | Every source is at distance 0. |
| Distance.PredecessorAtPreviousLayer | utils_data/PopulationData.py:105 | A node at distance d > 0 has a neighbour at distance d - 1. |
| Distance.AdjacentDistances | utils_data/PopulationData.py:105 | The distances of adjacent nodes differ by at most one, so no neighbour is closer than d - 1. |
| Distance.NeighbourWithinOne | utils_data/PopulationData.py:105 | A neighbour of a node at distance d is reachable, at distance at most d + 1. |
| Distance.DistanceUnique | utils_data/PopulationData.py:105 | A node has at most one distance. |
| Distance.ReachableIffDistance | utils_data/PopulationData.py:105-108 | Exactly the reachable nodes have a distance. |
| Distance.DistanceIsShortestWalk | utils_data/PopulationData.py:105 | The distance is the length of a shortest walk: some walk from a source has exactly d edges, and none has fewer. |
| Distance.BallIsWalks | utils_data/PopulationData.py:105 | The nodes within k edges are exactly the ends of walks of at most k edges from a source. |
| NeighbourAggregate.SumCells | utils_data/PopulationData.py:115 | The definition of `np.sum` on cells: 0 for the empty list, otherwise the cell sum, in which NaN and `inf` absorb. Its properties are stated by `SumAppend`, `SumPermutation` and `SumOfNumbers`. |
| NeighbourAggregate.MeanCells | utils_data/PopulationData.py:150 | The definition of `np.mean` on cells: NaN for the empty list, otherwise the sum over the length. Its properties are stated by `MeanPermutation` and `MeanIsSumOverLength`. |
| NeighbourAggregate.SumAppend | utils_data/PopulationData.py:115 | Appending a value to a list adds it to the sum, however often it already occurs. |
| NeighbourAggregate.Aggregate | utils_data/PopulationData.py:115 | A row's aggregate fails exactly when an id of its list has no value; otherwise it is the sum or the mean of the gathered values. |
| NeighbourAggregate.AggregateOfNothing | utils_data/PopulationData.py:115 | An empty list sums to 0 and has a NaN mean. |
| NeighbourAggregate.AggregateAppend | utils_data/PopulationData.py:115 | Appending an id adds its value to the sum, so repeats count as often as they occur. |
| NeighbourAggregate.RepeatsCount | utils_data/PopulationData.py:115 | An id listed twice contributes twice to the sum. |
| NeighbourAggregate.AggregatePermutation | utils_data/PopulationData.py:115 | Reordering a connection list changes neither its sum nor its mean, nor whether it fails. |
| NeighbourAggregate.SumPermutation | utils_data/PopulationData.py:115 | `np.sum` depends only on the multiset of values. |
| NeighbourAggregate.MeanPermutation | utils_data/PopulationData.py:150 | `np.mean` depends only on the multiset of values. |
| NeighbourAggregate.MeanIsSumOverLength | utils_data/PopulationData.py:150 | For a non-empty list of finite values, the mean is the sum divided by the list length, repeats included. |
| NeighbourAggregate.PlusCommutes | utils_data/PopulationData.py:115 | Adding cells (with `inf` and NaN) is commutative. |
| NeighbourAggregate.PlusAssociates | utils_data/PopulationData.py:115 | Adding cells (with `inf` and NaN) is associative. |
| NeighbourAggregate.SumOfNumbers | utils_data/PopulationData.py:115 | A list of finite values has a finite sum. |
| NeighbourAggregate.FeatureColumn | utils_data/PopulationData.py:112-187 | A feature column fails exactly when some row lists an id the source column lacks; otherwise each row holds its aggregate. |
| Population.PopulationData.EncodeNeighbourFeature | utils_data/PopulationData.py:112-187 | For each of the eleven sum and mean steps, `ok` is true exactly when the column can be computed; then the table gains it, and otherwise nothing changes. |
| Views.RowsOf | utils_data/PopulationData.py:200-201 | The kept rows are exactly the table rows of the requested population, or all rows when none is given. |
| Views.RowsOfInOrder | utils_data/PopulationData.py:200-201 | The kept rows are a subsequence of the table's rows: increasing positions of the index spell them out, so filtering keeps table order. |
| Views.RowsOfDistinct | utils_data/PopulationData.py:200-201 | The kept rows are distinct. |
| Views.RowsOfAll | utils_data/PopulationData.py:199 | Without a population filter the rows are the whole index, in order. |
| Views.DataFrames | utils_data/PopulationData.py:195-210 | The rows are those of the requested population; the feature names are the non-bookkeeping columns cut down to the request; the labels have one entry per kept row. |
| Views.DataFramesValues | utils_data/PopulationData.py:204-209 | Every feature column and the labels hold the table's values on exactly the kept rows. |
| Views.FeatureSelection | utils_data/PopulationData.py:204-209 | A column is a feature exactly when it is in the table, is not `Population`, `Connections`, `Train` or `Infected`, and was requested. |
| Views.LabelsOfRows | utils_data/PopulationData.py:200-206 | A label exists exactly for the rows of the population, and it is the row's `Infected` value. |
| Views.Restrict | utils_data/PopulationData.py:201 | A column restricted to rows keeps exactly those rows' values. |
| Views.Induced | utils_data/PopulationData.py:230-231 | Removing the other nodes leaves the kept nodes with their neighbours among the kept nodes only. |
| Views.InducedUndirected | utils_data/PopulationData.py:230-231 | An induced subgraph of an undirected graph is undirected, with no edge leaving it. |
| Views.AttributeNames | utils_data/PopulationData.py:232-233 | The attributes are the requested table columns, except `Population`, `Connections` and `Train`. |
| Views.SetNodeAttribute | utils_data/PopulationData.py:235 | Every node with a value gets the attribute; other nodes, and values of ids that are not nodes, are ignored. |
| Views.NodeAttributes | utils_data/PopulationData.py:234-235 | Each node carries exactly the named columns that have a value for it, with those values. |
| Views.AttachColumn | utils_data/PopulationData.py:234-235 | Setting one more column's attribute adds that name to what each node carries. |
| Population.AttachAttributes | utils_data/PopulationData.py:234-235 | The attribute loop, in any order of names, ends with every node carrying its named columns. |
| Population.PopulationData.GetGraph | utils_data/PopulationData.py:226-236 | The result is the graph, or its subgraph induced on the population's nodes, with its nodes' requested attributes; the object is not changed. |
| DataTable.WithColumn | utils_data/PopulationData.py:80 | Assigning a column keeps the table well formed and changes that column only. |

## Left out

- CSV loading and saving (`load_raw`, `load_processed`, `save_processed`, lines 23-33): file I/O. The constructor takes the loaded table.
- MinMax and standard scaling (lines 35-63): floating-point sklearn transforms.
- `encode_connection_lists` (lines 65-67): `ast.literal_eval` parsing. Connection lists are taken as already-parsed id sequences.
- `encode_clustering_coefficient` (lines 89-93): a floating-point networkx computation. `Clustering_Coefficient` is only read, as the source of `Mean_Neighbor_Clustering_Coefficient`.
- `encode_test_train` (lines 189-193): random splitting. A `Train` column, when the table has one, comes with the loaded table.
- The `train` filter of `get_data_dataframes` (lines 202-203): it indexes a column named `train` or `test`, which the class never creates. `Views.DataFrames` takes no `train` argument.
- `get_data_numpy`, `get_data_tensors` and `get_graph_torch` (lines 212-224, 238-243): numpy, torch and torch_geometric conversions.
- The `__main__` driver (lines 246-255): orchestration only.
- Floating point: attribute values are exact reals, `inf` and NaN. Neither rounding nor overflow is modelled. `np.sum` rounds every partial sum, and it adds pairwise. So a reordered list of ordinary values, such as `[0.1, 0.2, 0.3]`, can give a sum that differs in the last bits. Finite values whose sum exceeds the largest double give `inf`.
- NeighbourAggregate.SumPermutation, NeighbourAggregate.MeanPermutation, NeighbourAggregate.AggregatePermutation and NeighbourAggregate.PlusAssociates: these hold of the exact real-valued model only. With doubles, reordering or regrouping can change the last bits of a sum or mean.
- NeighbourAggregate.SumOfNumbers: this holds of the exact real-valued model only. With doubles, finite values can overflow to an infinite sum.
- pandas column order, dtypes and the `DataFrame` objects themselves are not modelled. A view is the set of its column names with their id-keyed values.
- Population.PopulationData.EncodeDegrees: does not model that `encode_degrees` returns `None` instead of `self` (line 81). The method returns nothing, so chaining is not modelled.
- Population.PopulationData.GetGraph: requires a feature list, because `features=None` fails at `set & None` (line 232). With a population it also requires every graph node to be a table id, because `data_df.loc` of an unknown node raises (line 231).
- Views.DataFrames: requires the `Train` and `Infected` columns, because the `drop` on line 204 raises without them.
- Views.DataFrames: with a feature list, it follows pandas before 2.0, where indexing a frame with a `set` (line 209) selects those columns and only warns. From pandas 2.0 on, that line raises `TypeError` for every feature list, and the model does not capture that failure.
- Population.PopulationData.EncodeNeighbourFeature: requires the source column, e.g. `Degrees` before `Sum_Neighbor_Degree`; its absence is a `KeyError` at the `to_dict` line.
- Population.PopulationData.EncodeDistanceToIndexPatient: models networkx's `ValueError` for an empty source list as `ok == false`, with the table unchanged.
- Distance.MultiSourceBfs: Dijkstra with unit weights is modelled as breadth-first search by layers. The two agree on every distance, but the order in which networkx settles nodes is not modelled.
