/**
  The contact graph of `encode_graph_nx` (an `nx.Graph`) as adjacency sets, the
  graph it builds from the table, and the networkx degree read by
  `encode_degrees` and `encode_degree_centrality`.
*/
module ContactGraph {
  import opened DataTable

  /** An undirected graph: the keys are the nodes, `g[v]` the neighbours of v. */
  type Graph = map<Id, set<Id>>

  function Nbrs(g: Graph, v: Id): set<Id>
  {
    if v in g then g[v] else {}
  }

  ghost predicate Symmetric(g: Graph)
  {
    forall a, b :: b in Nbrs(g, a) ==> a in Nbrs(g, b)
  }

  /** Every neighbour is itself a node. */
  ghost predicate Closed(g: Graph)
  {
    forall a, b :: b in Nbrs(g, a) ==> b in g
  }

  ghost predicate LoopFree(g: Graph)
  {
    forall v :: v !in Nbrs(g, v)
  }

  /** `add_node(v)`: a new node has no neighbours; an existing one is left alone. */
  function AddNode(g: Graph, v: Id): (r: Graph)
    ensures r.Keys == g.Keys + {v}
  {
    if v in g then g else g[v := {}]
  }

  lemma AddNodeNbrs(g: Graph, v: Id, x: Id)
    ensures Nbrs(AddNode(g, v), x) == Nbrs(g, x)
  {
  }

  /**
    `add_edge(a, b)`: both ends become nodes and each becomes a neighbour of
    the other; an edge already there changes nothing, and `a == b` is kept as
    a self-loop.
  */
  function AddEdge(g: Graph, a: Id, b: Id): (r: Graph)
    ensures r.Keys == g.Keys + {a, b}
  {
    var g1 := g[a := Nbrs(g, a) + {b}];
    g1[b := Nbrs(g1, b) + {a}]
  }

  lemma AddEdgeNbrs(g: Graph, a: Id, b: Id, x: Id)
    ensures Nbrs(AddEdge(g, a, b), x) == Nbrs(g, x) + (if x == a then {b} else {}) + (if x == b then {a} else {})
  {
  }

  /** `for c in cs: add_edge(a, c)`, for a node a already in the graph. */
  function AddEdges(g: Graph, a: Id, cs: seq<Id>): (r: Graph)
    requires a in g
    ensures r.Keys == g.Keys + IdSet(cs)
    decreases |cs|
  {
    if cs == [] then g
    else
      var n := |cs| - 1;
      assert cs == cs[..n] + [cs[n]];
      AddEdge(AddEdges(g, a, cs[..n]), a, cs[n])
  }

  /** After the loop, a is linked with every id of its list and nothing else has changed. */
  lemma {:induction false} AddEdgesNbrs(g: Graph, a: Id, cs: seq<Id>, x: Id)
    requires a in g
    ensures Nbrs(AddEdges(g, a, cs), x) == Nbrs(g, x) + (if x == a then IdSet(cs) else {}) + (if x in cs then {a} else {})
    decreases |cs|
  {
    if cs != [] {
      var n := |cs| - 1;
      assert cs == cs[..n] + [cs[n]];
      AddEdgesNbrs(g, a, cs[..n], x);
      AddEdgeNbrs(AddEdges(g, a, cs[..n]), a, cs[n], x);
    }
  }

  /**
    The graph `encode_graph_nx` builds: for each row id a of `order`, in turn,
    `add_node(a)` and then an edge to every entry of a's connection list.
  */
  function Build(order: seq<Id>, conns: map<Id, seq<Id>>): Graph
    requires IdSet(order) <= conns.Keys
    decreases |order|
  {
    if order == [] then map[]
    else
      var n := |order| - 1;
      var a := order[n];
      assert IdSet(order[..n]) <= IdSet(order);
      AddEdges(AddNode(Build(order[..n], conns), a), a, conns[a])
  }

  /** Row a of the table lists b among its connections. */
  ghost predicate Declares(order: seq<Id>, conns: map<Id, seq<Id>>, a: Id, b: Id)
  {
    a in order && a in conns && b in conns[a]
  }

  /** Every id that appears in some row's connection list. */
  function Mentioned(order: seq<Id>, conns: map<Id, seq<Id>>): set<Id>
    requires IdSet(order) <= conns.Keys
    decreases |order|
  {
    if order == [] then {}
    else
      var n := |order| - 1;
      assert IdSet(order[..n]) <= IdSet(order);
      Mentioned(order[..n], conns) + IdSet(conns[order[n]])
  }

  lemma {:induction false} MentionedIff(order: seq<Id>, conns: map<Id, seq<Id>>, c: Id)
    requires IdSet(order) <= conns.Keys
    ensures c in Mentioned(order, conns) <==> exists a :: a in order && c in conns[a]
    decreases |order|
  {
    if order != [] {
      var n := |order| - 1;
      var last := order[n];
      assert order == order[..n] + [last];
      MentionedIff(order[..n], conns, c);
      if c in Mentioned(order, conns) {
        if c in Mentioned(order[..n], conns) {
          var a :| a in order[..n] && c in conns[a];
          assert a in order;
        } else {
          assert last in order && c in conns[last];
        }
      }
      if exists a :: a in order && c in conns[a] {
        var a :| a in order && c in conns[a];
        if a != last {
          assert a in order[..n];
        }
      }
    }
  }

  /** Every row id, and every id a connection list mentions, is a node. */
  lemma {:induction false} BuildNodes(order: seq<Id>, conns: map<Id, seq<Id>>)
    requires IdSet(order) <= conns.Keys
    ensures Build(order, conns).Keys == IdSet(order) + Mentioned(order, conns)
    decreases |order|
  {
    if order != [] {
      var n := |order| - 1;
      assert order == order[..n] + [order[n]];
      assert IdSet(order) == IdSet(order[..n]) + {order[n]};
      BuildNodes(order[..n], conns);
    }
  }

  /** a and b are adjacent exactly when one of the two rows lists the other. */
  lemma {:induction false} BuildAdjacency(order: seq<Id>, conns: map<Id, seq<Id>>, a: Id, b: Id)
    requires IdSet(order) <= conns.Keys
    ensures b in Nbrs(Build(order, conns), a) <==> Declares(order, conns, a, b) || Declares(order, conns, b, a)
    decreases |order|
  {
    if order != [] {
      var n := |order| - 1;
      var last := order[n];
      assert order == order[..n] + [last];
      BuildAdjacency(order[..n], conns, a, b);
      var before := AddNode(Build(order[..n], conns), last);
      AddNodeNbrs(Build(order[..n], conns), last, a);
      AddEdgesNbrs(before, last, conns[last], a);
      assert a in order <==> a in order[..n] || a == last;
      assert b in order <==> b in order[..n] || b == last;
    }
  }

  lemma BuildIsUndirected(order: seq<Id>, conns: map<Id, seq<Id>>)
    requires IdSet(order) <= conns.Keys
    ensures Symmetric(Build(order, conns)) && Closed(Build(order, conns))
  {
    var g := Build(order, conns);
    BuildNodes(order, conns);
    forall a, b | b in Nbrs(g, a) ensures a in Nbrs(g, b) && b in g {
      BuildAdjacency(order, conns, a, b);
      BuildAdjacency(order, conns, b, a);
      if Declares(order, conns, a, b) {
        MentionedIff(order, conns, b);
      }
    }
  }

  /** Two tables whose rows list the same sets of ids. */
  ghost predicate SameConnectionSets(order: seq<Id>, conns: map<Id, seq<Id>>, conns': map<Id, seq<Id>>)
  {
    && IdSet(order) <= conns.Keys && IdSet(order) <= conns'.Keys
    && forall a :: a in order ==> IdSet(conns[a]) == IdSet(conns'[a])
  }

  lemma {:induction false} MentionedOfSameSets(order: seq<Id>, conns: map<Id, seq<Id>>, conns': map<Id, seq<Id>>, c: Id)
    requires SameConnectionSets(order, conns, conns')
    ensures c in Mentioned(order, conns) ==> c in Mentioned(order, conns')
  {
    MentionedIff(order, conns, c);
    MentionedIff(order, conns', c);
    if c in Mentioned(order, conns) {
      var a :| a in order && c in conns[a];
      assert c in IdSet(conns[a]);
    }
  }

  lemma {:induction false} AdjacencyOfSameSets(order: seq<Id>, conns: map<Id, seq<Id>>, conns': map<Id, seq<Id>>, v: Id, u: Id)
    requires SameConnectionSets(order, conns, conns')
    ensures u in Nbrs(Build(order, conns), v) ==> u in Nbrs(Build(order, conns'), v)
  {
    BuildAdjacency(order, conns, v, u);
    BuildAdjacency(order, conns', v, u);
    if v in order { assert u in conns[v] <==> u in IdSet(conns[v]); }
    if u in order { assert v in conns[u] <==> v in IdSet(conns[u]); }
  }

  lemma NodesOfSameSets(order: seq<Id>, conns: map<Id, seq<Id>>, conns': map<Id, seq<Id>>)
    requires SameConnectionSets(order, conns, conns')
    ensures Build(order, conns).Keys == Build(order, conns').Keys
  {
    BuildNodes(order, conns);
    BuildNodes(order, conns');
    forall c ensures c in Mentioned(order, conns) <==> c in Mentioned(order, conns') {
      MentionedOfSameSets(order, conns, conns', c);
      MentionedOfSameSets(order, conns', conns, c);
    }
  }

  lemma NbrsOfSameSets(order: seq<Id>, conns: map<Id, seq<Id>>, conns': map<Id, seq<Id>>, v: Id)
    requires SameConnectionSets(order, conns, conns')
    ensures Nbrs(Build(order, conns), v) == Nbrs(Build(order, conns'), v)
  {
    forall u ensures u in Nbrs(Build(order, conns), v) <==> u in Nbrs(Build(order, conns'), v) {
      AdjacencyOfSameSets(order, conns, conns', v, u);
      AdjacencyOfSameSets(order, conns', conns, v, u);
    }
  }

  /**
    Repeating an entry, or reordering a connection list, does not change the
    graph: it depends only on the set of ids each row lists.
  */
  lemma {:induction false} BuildIgnoresRepetition(order: seq<Id>, conns: map<Id, seq<Id>>, conns': map<Id, seq<Id>>)
    requires SameConnectionSets(order, conns, conns')
    ensures Build(order, conns) == Build(order, conns')
  {
    var g, g' := Build(order, conns), Build(order, conns');
    NodesOfSameSets(order, conns, conns');
    forall v | v in g ensures g[v] == g'[v] {
      NbrsOfSameSets(order, conns, conns', v);
    }
  }

  /** `G.degree()` of networkx: distinct neighbours, a self-loop counted twice. */
  function Degree(g: Graph, v: Id): nat
  {
    |Nbrs(g, v)| + (if v in Nbrs(g, v) then 1 else 0)
  }

  /** The ids some table row links with v, in either direction. */
  ghost function DeclaredNeighbours(order: seq<Id>, conns: map<Id, seq<Id>>, v: Id): set<Id>
    requires IdSet(order) <= conns.Keys
  {
    set u | u in IdSet(order) + Mentioned(order, conns) && (Declares(order, conns, v, u) || Declares(order, conns, u, v))
  }

  /**
    The degree written by `encode_degrees` counts each linked id once, however
    many times and from whichever end the link is listed; a row listing itself
    adds two.
  */
  lemma DegreeOfBuild(order: seq<Id>, conns: map<Id, seq<Id>>, v: Id)
    requires IdSet(order) <= conns.Keys
    ensures Degree(Build(order, conns), v)
         == |DeclaredNeighbours(order, conns, v)| + (if Declares(order, conns, v, v) then 1 else 0)
  {
    var g := Build(order, conns);
    BuildNodes(order, conns);
    BuildIsUndirected(order, conns);
    forall u ensures u in Nbrs(g, v) <==> u in DeclaredNeighbours(order, conns, v) {
      BuildAdjacency(order, conns, v, u);
    }
    assert Nbrs(g, v) == DeclaredNeighbours(order, conns, v);
  }

  lemma SubsetCardinality(a: set<Id>, b: set<Id>)
    requires a <= b
    ensures |a| <= |b|
  {
    assert b == a + (b - a);
  }

  /** In a loop-free graph no node has more neighbours than there are other nodes. */
  lemma DegreeBound(g: Graph, v: Id)
    requires Closed(g) && LoopFree(g) && v in g
    ensures Degree(g, v) <= |g| - 1
  {
    forall u | u in Nbrs(g, v) ensures u in g.Keys - {v} {
      assert u in g && u != v;
    }
    SubsetCardinality(Nbrs(g, v), g.Keys - {v});
    assert |g.Keys| == |g|;
  }

  /** `nx.degree_centrality`: degree / (n - 1), and 1 for every node of a graph with at most one node. */
  function DegreeCentrality(g: Graph, v: Id): real
  {
    if |g| <= 1 then 1.0 else Degree(g, v) as real / (|g| - 1) as real
  }

  lemma CentralityInUnitInterval(g: Graph, v: Id)
    requires Closed(g) && LoopFree(g) && v in g
    ensures 0.0 <= DegreeCentrality(g, v) <= 1.0
  {
    if |g| > 1 {
      DegreeBound(g, v);
      DivAtMostOne(Degree(g, v) as real, (|g| - 1) as real);
    }
  }

  /** A quotient of a non-negative value by a value at least as large lies in [0, 1]. */
  lemma DivAtMostOne(d: real, n: real)
    requires 0.0 <= d <= n && n > 0.0
    ensures 0.0 <= d / n <= 1.0
  {
    var q := d / n;
    assert q * n == d;
  }
}
