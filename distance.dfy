/**
  Hop distance from a set of sources (the index patients), as computed by
  `nx.multi_source_dijkstra_path_length` on the unit-weight contact graph in
  `encode_distance_to_index_patient`. The distance is defined by breadth-first
  layers (`Ball`), related to walks by `BallIsWalks`, and computed by the
  breadth-first search `MultiSourceBfs`.
*/
module Distance {
  import opened DataTable
  import opened ContactGraph

  /** The nodes one edge away from some node of x. */
  function Step(g: Graph, x: set<Id>): set<Id>
  {
    set u, v | u in x && v in Nbrs(g, u) :: v
  }

  lemma InStep(g: Graph, x: set<Id>, u: Id, v: Id)
    requires u in x && v in Nbrs(g, u)
    ensures v in Step(g, x)
  {
  }

  /** The nodes at most k edges away from a source. */
  ghost function Ball(g: Graph, sources: set<Id>, k: nat): set<Id>
    decreases k
  {
    if k == 0 then sources else Ball(g, sources, k - 1) + Step(g, Ball(g, sources, k - 1))
  }

  ghost predicate Reachable(g: Graph, sources: set<Id>, v: Id)
  {
    exists k: nat :: v in Ball(g, sources, k)
  }

  /** d is the least number of edges between v and a source. */
  ghost predicate HasDistance(g: Graph, sources: set<Id>, v: Id, d: nat)
  {
    v in Ball(g, sources, d) && (d == 0 || v !in Ball(g, sources, d - 1))
  }

  lemma {:induction false} BallMonotone(g: Graph, sources: set<Id>, i: nat, j: nat)
    requires i <= j
    ensures Ball(g, sources, i) <= Ball(g, sources, j)
    decreases j - i
  {
    if i < j {
      BallMonotone(g, sources, i, j - 1);
    }
  }

  /** Once a layer adds nothing, no later layer does. */
  lemma {:induction false} BallStable(g: Graph, sources: set<Id>, k: nat, j: nat)
    requires Ball(g, sources, k + 1) == Ball(g, sources, k) && k <= j
    ensures Ball(g, sources, j) == Ball(g, sources, k)
    decreases j - k
  {
    if k < j {
      BallStable(g, sources, k, j - 1);
    }
  }

  /** A node has at most one distance. */
  lemma DistanceUnique(g: Graph, sources: set<Id>, v: Id, d: nat, e: nat)
    requires HasDistance(g, sources, v, d) && HasDistance(g, sources, v, e)
    ensures d == e
  {
    DistanceAtMost(g, sources, v, d, e);
    DistanceAtMost(g, sources, v, e, d);
  }

  /** Every node within k edges has a distance, and it is at most k. */
  lemma {:induction false} DistanceWithin(g: Graph, sources: set<Id>, v: Id, k: nat)
    requires v in Ball(g, sources, k)
    ensures exists d: nat :: d <= k && HasDistance(g, sources, v, d)
    decreases k
  {
    if k > 0 && v in Ball(g, sources, k - 1) {
      DistanceWithin(g, sources, v, k - 1);
    } else {
      assert HasDistance(g, sources, v, k);
    }
  }

  /** Exactly the reachable nodes have a distance. */
  lemma ReachableIffDistance(g: Graph, sources: set<Id>, v: Id)
    ensures Reachable(g, sources, v) <==> exists d: nat :: HasDistance(g, sources, v, d)
  {
    if Reachable(g, sources, v) {
      var k: nat :| v in Ball(g, sources, k);
      DistanceWithin(g, sources, v, k);
    }
  }

  /** Every source is at distance 0. */
  lemma SourceAtZero(g: Graph, sources: set<Id>, s: Id)
    requires s in sources
    ensures HasDistance(g, sources, s, 0) && Reachable(g, sources, s)
  {
    assert s in Ball(g, sources, 0);
  }

  /**
    A node at distance d > 0 has a neighbour at distance d - 1 (the graph is
    undirected).
  */
  lemma {:induction false} PredecessorAtPreviousLayer(g: Graph, sources: set<Id>, v: Id, d: nat)
    requires Symmetric(g) && HasDistance(g, sources, v, d) && d > 0
    ensures exists u :: u in Nbrs(g, v) && HasDistance(g, sources, u, d - 1)
  {
    var prev := Ball(g, sources, d - 1);
    assert v in Step(g, prev);
    var u, w :| u in prev && w in Nbrs(g, u) && w == v;
    assert HasDistance(g, sources, u, d - 1);
    assert u in Nbrs(g, v);
  }

  /** A neighbour of a node at distance d is reachable, at distance at most d + 1. */
  lemma {:induction false} NeighbourWithinOne(g: Graph, sources: set<Id>, u: Id, v: Id, d: nat)
    requires v in Nbrs(g, u) && HasDistance(g, sources, u, d)
    ensures v in Ball(g, sources, d + 1) && Reachable(g, sources, v)
    ensures forall e: nat :: HasDistance(g, sources, v, e) ==> e <= d + 1
  {
    assert v in Ball(g, sources, d + 1) by {
      InStep(g, Ball(g, sources, d), u, v);
    }
    forall e: nat | HasDistance(g, sources, v, e) ensures e <= d + 1 {
      DistanceAtMost(g, sources, v, d + 1, e);
    }
  }

  /** A node within k edges has its distance at most k. */
  lemma DistanceAtMost(g: Graph, sources: set<Id>, v: Id, k: nat, e: nat)
    requires v in Ball(g, sources, k) && HasDistance(g, sources, v, e)
    ensures e <= k
  {
    if e > k {
      InLaterBall(g, sources, v, k, e - 1);
    }
  }

  /** A node within i edges is within j >= i edges. */
  lemma {:induction false} InLaterBall(g: Graph, sources: set<Id>, v: Id, i: nat, j: nat)
    requires i <= j && v in Ball(g, sources, i)
    ensures v in Ball(g, sources, j)
    decreases j
  {
    if i < j {
      InLaterBall(g, sources, v, i, j - 1);
    }
  }

  /** The distances of two adjacent nodes differ by at most one. */
  lemma AdjacentDistances(g: Graph, sources: set<Id>, u: Id, v: Id, du: nat, dv: nat)
    requires Symmetric(g) && v in Nbrs(g, u)
    requires HasDistance(g, sources, u, du) && HasDistance(g, sources, v, dv)
    ensures dv <= du + 1 && du <= dv + 1
  {
    NeighbourWithinOne(g, sources, u, v, du);
    NeighbourWithinOne(g, sources, v, u, dv);
  }

  /** p is a walk: each node after the first is a neighbour of the one before. */
  ghost predicate IsWalk(g: Graph, p: seq<Id>)
  {
    |p| > 0 && forall i :: 0 < i < |p| ==> p[i] in Nbrs(g, p[i - 1])
  }

  /** A walk from a source to v of at most k edges, one in Ball(k). */
  ghost predicate WalkFromSources(g: Graph, sources: set<Id>, v: Id, k: nat, p: seq<Id>)
  {
    IsWalk(g, p) && p[0] in sources && p[|p| - 1] == v && |p| <= k + 1
  }

  lemma {:induction false} WalkEndsInBall(g: Graph, sources: set<Id>, v: Id, k: nat, p: seq<Id>)
    requires WalkFromSources(g, sources, v, k, p)
    ensures v in Ball(g, sources, k)
    decreases |p|
  {
    if |p| == 1 {
      BallMonotone(g, sources, 0, k);
    } else {
      var q := p[..|p| - 1];
      assert IsWalk(g, q);
      WalkEndsInBall(g, sources, q[|q| - 1], k - 1, q);
      InStep(g, Ball(g, sources, k - 1), q[|q| - 1], v);
    }
  }

  lemma {:induction false} BallHasWalk(g: Graph, sources: set<Id>, v: Id, k: nat)
    requires v in Ball(g, sources, k)
    ensures exists p :: WalkFromSources(g, sources, v, k, p)
    decreases k
  {
    if k == 0 {
      assert WalkFromSources(g, sources, v, k, [v]);
    } else if v in Ball(g, sources, k - 1) {
      BallHasWalk(g, sources, v, k - 1);
      var p :| WalkFromSources(g, sources, v, k - 1, p);
      assert WalkFromSources(g, sources, v, k, p);
    } else {
      var prev := Ball(g, sources, k - 1);
      var u, w :| u in prev && w in Nbrs(g, u) && w == v;
      BallHasWalk(g, sources, u, k - 1);
      var p :| WalkFromSources(g, sources, u, k - 1, p);
      assert WalkFromSources(g, sources, v, k, p + [v]);
    }
  }

  /** Ball(k) is exactly the set of nodes some walk of at most k edges leads to from a source. */
  lemma BallIsWalks(g: Graph, sources: set<Id>, v: Id, k: nat)
    ensures v in Ball(g, sources, k) <==> exists p :: WalkFromSources(g, sources, v, k, p)
  {
    if v in Ball(g, sources, k) {
      BallHasWalk(g, sources, v, k);
    }
    if exists p :: WalkFromSources(g, sources, v, k, p) {
      var p :| WalkFromSources(g, sources, v, k, p);
      WalkEndsInBall(g, sources, v, k, p);
    }
  }

  /**
    The distance is the hop count of a shortest walk: some walk from a source
    has exactly d edges, and none has fewer.
  */
  lemma DistanceIsShortestWalk(g: Graph, sources: set<Id>, v: Id, d: nat)
    requires HasDistance(g, sources, v, d)
    ensures exists p :: WalkFromSources(g, sources, v, d, p) && |p| == d + 1
    ensures forall p :: IsWalk(g, p) && p[0] in sources && p[|p| - 1] == v ==> |p| >= d + 1
  {
    BallHasWalk(g, sources, v, d);
    var p :| WalkFromSources(g, sources, v, d, p);
    NoShorterWalk(g, sources, v, d, p);
    forall q | IsWalk(g, q) && q[0] in sources && q[|q| - 1] == v ensures |q| >= d + 1 {
      NoShorterWalk(g, sources, v, d, q);
    }
  }

  /** A walk from a source to a node at distance d has at least d edges. */
  lemma NoShorterWalk(g: Graph, sources: set<Id>, v: Id, d: nat, q: seq<Id>)
    requires HasDistance(g, sources, v, d)
    requires IsWalk(g, q) && q[0] in sources && q[|q| - 1] == v
    ensures |q| >= d + 1
  {
    WalkEndsInBall(g, sources, v, |q| - 1, q);
    DistanceAtMost(g, sources, v, |q| - 1, d);
  }

  /** The state of the search: the nodes seen, the last layer, the distances recorded. */
  datatype Round = Round(visited: set<Id>, frontier: set<Id>, dist: map<Id, nat>)

  /**
    The search after k rounds: it starts from the sources at distance 0, and
    each round records the unvisited neighbours of the frontier at the next
    distance and makes them the frontier.
  */
  ghost function Rounds(g: Graph, sources: set<Id>, k: nat): Round
  {
    if k == 0 then Round(sources, sources, map v | v in sources :: 0)
    else
      var r := Rounds(g, sources, k - 1);
      var next := Step(g, r.frontier) - r.visited;
      Round(r.visited + next, next, SetLayer(r.dist, next, k))
  }

  /**
    Multi-source breadth-first search: the reached nodes are exactly the
    reachable ones, each with its distance.
  */
  method MultiSourceBfs(g: Graph, sources: set<Id>) returns (dist: map<Id, nat>)
    requires Closed(g)
    ensures forall v :: v in dist <==> Reachable(g, sources, v)
    ensures forall v :: v in dist ==> HasDistance(g, sources, v, dist[v])
  {
    var universe := g.Keys + sources;
    var visited := sources;
    var frontier := sources;
    dist := map v | v in sources :: 0;
    var k: nat := 0;
    while frontier != {}
      invariant Round(visited, frontier, dist) == Rounds(g, sources, k)
      invariant visited <= universe
      decreases |universe - visited|, |frontier|
    {
      var next := Step(g, frontier) - visited;
      RoundsWithin(g, sources, k + 1);
      Shrinks(universe, visited, next);
      dist := SetLayer(dist, next, k + 1);
      visited := visited + next;
      frontier := next;
      k := k + 1;
    }
    RoundsComplete(g, sources, k);
  }

  /** The search never leaves the nodes of the graph and the sources. */
  lemma {:induction false} RoundsWithin(g: Graph, sources: set<Id>, k: nat)
    requires Closed(g)
    ensures Rounds(g, sources, k).visited <= g.Keys + sources
  {
    if k > 0 {
      var r := Rounds(g, sources, k - 1);
      RoundsWithin(g, sources, k - 1);
      forall v | v in Step(g, r.frontier) ensures v in g {
        var u, w :| u in r.frontier && w in Nbrs(g, u) && w == v;
      }
    }
  }

  /** After k rounds the search has seen Ball(k), with the right distances. */
  lemma {:induction false} RoundsSearching(g: Graph, sources: set<Id>, k: nat, r: Round)
    requires Closed(g) && r == Rounds(g, sources, k)
    ensures Searching(g, sources, k, r.visited, r.frontier, r.dist)
  {
    if k == 0 {
      SearchStart(g, sources, r.dist);
    } else {
      var p := Rounds(g, sources, k - 1);
      RoundsSearching(g, sources, k - 1, p);
      RoundAfter(g, sources, k, p, r);
    }
  }

  /** Round k of the search, from a correct state after round k - 1. */
  lemma RoundAfter(g: Graph, sources: set<Id>, k: nat, p: Round, r: Round)
    requires k > 0 && Closed(g) && Searching(g, sources, k - 1, p.visited, p.frontier, p.dist)
    requires r == Rounds(g, sources, k) && p == Rounds(g, sources, k - 1)
    ensures Searching(g, sources, k, r.visited, r.frontier, r.dist)
  {
    var next := Step(g, p.frontier) - p.visited;
    RoundsUnfold(g, sources, k, p, next);
    BfsRound(g, sources, k, p.visited, p.frontier, p.dist, next);
  }

  /** Round k is round k - 1 followed by one more layer. */
  lemma RoundsUnfold(g: Graph, sources: set<Id>, k: nat, p: Round, next: set<Id>)
    requires k > 0 && p == Rounds(g, sources, k - 1) && next == Step(g, p.frontier) - p.visited
    ensures Rounds(g, sources, k).visited == p.visited + next
    ensures Rounds(g, sources, k).frontier == next
    ensures Rounds(g, sources, k).dist == SetLayer(p.dist, next, k)
  {
  }

  /** A search whose last round added nothing has found every distance. */
  lemma RoundsComplete(g: Graph, sources: set<Id>, k: nat)
    requires Closed(g) && Rounds(g, sources, k).frontier == {}
    ensures IsHopDistance(g, sources, Rounds(g, sources, k).dist)
  {
    var r := Rounds(g, sources, k);
    RoundsSearching(g, sources, k, r);
    SearchComplete(g, sources, k, r.visited, r.frontier, r.dist);
  }

  /** dist holds exactly the reachable nodes, each with its hop distance. */
  ghost predicate IsHopDistance(g: Graph, sources: set<Id>, dist: map<Id, nat>)
  {
    && (forall v :: v in dist <==> Reachable(g, sources, v))
    && (forall v :: v in dist ==> HasDistance(g, sources, v, dist[v]))
  }

  /** Before the first round the sources are visited, at distance 0. */
  lemma SearchStart(g: Graph, sources: set<Id>, dist: map<Id, nat>)
    requires dist == map v | v in sources :: 0
    ensures Searching(g, sources, 0, sources, sources, dist)
  {
  }

  /** Every node the search has reached so far carries its distance. */
  ghost predicate DistancesCorrect(g: Graph, sources: set<Id>, dist: map<Id, nat>)
  {
    forall v :: v in dist ==> HasDistance(g, sources, v, dist[v])
  }

  /** A layer of nodes at distance d keeps the recorded distances correct. */
  lemma KeepDistances(g: Graph, sources: set<Id>, dist: map<Id, nat>, layer: set<Id>, d: nat)
    requires DistancesCorrect(g, sources, dist)
    requires forall v :: v in layer ==> HasDistance(g, sources, v, d)
    ensures DistancesCorrect(g, sources, SetLayer(dist, layer, d))
  {
  }

  /**
    The state of the search after k rounds: `visited` is Ball(k), the frontier
    the nodes at distance exactly k, and `dist` gives each visited node its
    distance.
  */
  ghost predicate Searching(g: Graph, sources: set<Id>, k: nat, visited: set<Id>, frontier: set<Id>, dist: map<Id, nat>)
  {
    && visited == Ball(g, sources, k)
    && Frontier(g, sources, k, frontier)
    && dist.Keys == visited
    && DistancesCorrect(g, sources, dist)
  }

  /** Round k of the search takes the state after k - 1 rounds to the state after k rounds. */
  lemma BfsRound(g: Graph, sources: set<Id>, k: nat, visited: set<Id>, frontier: set<Id>, dist: map<Id, nat>, next: set<Id>)
    requires k > 0 && Closed(g) && Searching(g, sources, k - 1, visited, frontier, dist)
    requires next == Step(g, frontier) - visited
    ensures Searching(g, sources, k, visited + next, next, SetLayer(dist, next, k))
    ensures next <= g.Keys && next !! visited
  {
    NextBall(g, sources, k, visited, frontier, next);
    LayerDistances(g, sources, k, next);
    KeepLayer(g, sources, dist, k, next);
  }

  /** Recording the layer first reached in round k keeps the distances correct. */
  lemma KeepLayer(g: Graph, sources: set<Id>, dist: map<Id, nat>, k: nat, next: set<Id>)
    requires k > 0 && DistancesCorrect(g, sources, dist)
    requires next == Ball(g, sources, k) - Ball(g, sources, k - 1)
    ensures DistancesCorrect(g, sources, SetLayer(dist, next, k))
  {
    LayerDistances(g, sources, k, next);
    KeepDistances(g, sources, dist, next, k);
  }

  /** The nodes visited after k - 1 rounds and the layer of round k make up Ball(k). */
  lemma NextBall(g: Graph, sources: set<Id>, k: nat, visited: set<Id>, frontier: set<Id>, next: set<Id>)
    requires k > 0 && Closed(g) && visited == Ball(g, sources, k - 1) && Frontier(g, sources, k - 1, frontier)
    requires next == Step(g, frontier) - visited
    ensures next == Ball(g, sources, k) - Ball(g, sources, k - 1)
    ensures visited + next == Ball(g, sources, k)
    ensures next <= g.Keys && next !! visited
  {
    NextLayer(g, sources, k - 1, frontier);
  }

  /** Adding a new layer leaves fewer unvisited nodes, strictly fewer unless it is empty. */
  lemma Shrinks(universe: set<Id>, visited: set<Id>, next: set<Id>)
    requires next <= universe && next !! visited
    ensures |universe - (visited + next)| + |next| == |universe - visited|
  {
    var rest := universe - (visited + next);
    assert universe - visited == rest + next;
    assert rest !! next;
  }

  /** When round k adds nothing, the search has reached every reachable node. */
  lemma SearchComplete(g: Graph, sources: set<Id>, k: nat, visited: set<Id>, frontier: set<Id>, dist: map<Id, nat>)
    requires Closed(g) && Searching(g, sources, k, visited, frontier, dist) && frontier == {}
    ensures IsHopDistance(g, sources, dist)
  {
    NextLayer(g, sources, k, {});
    assert Ball(g, sources, k + 1) == Ball(g, sources, k);
    forall v | Reachable(g, sources, v) ensures v in Ball(g, sources, k) {
      var j: nat :| v in Ball(g, sources, j);
      if j <= k {
        BallMonotone(g, sources, j, k);
      } else {
        BallStable(g, sources, k, j);
      }
    }
  }

  /** Records distance d for every node of a new layer. */
  function SetLayer(dist: map<Id, nat>, layer: set<Id>, d: nat): (r: map<Id, nat>)
    ensures r.Keys == dist.Keys + layer
    ensures forall v :: v in layer ==> r[v] == d
    ensures forall v :: v in dist && v !in layer ==> r[v] == dist[v]
  {
    dist + map v | v in layer :: d
  }

  /** The frontier after k rounds: the nodes at distance exactly k. */
  ghost predicate Frontier(g: Graph, sources: set<Id>, k: nat, frontier: set<Id>)
  {
    if k == 0 then frontier == sources else frontier == Ball(g, sources, k) - Ball(g, sources, k - 1)
  }

  /** The nodes first reached in round k are at distance k. */
  lemma LayerDistances(g: Graph, sources: set<Id>, k: nat, next: set<Id>)
    requires k > 0 && next == Ball(g, sources, k) - Ball(g, sources, k - 1)
    ensures Frontier(g, sources, k, next)
    ensures forall v :: v in next ==> HasDistance(g, sources, v, k)
  {
  }

  /** The next layer comes from the frontier alone, and stays among the nodes. */
  lemma NextLayer(g: Graph, sources: set<Id>, k: nat, frontier: set<Id>)
    requires Closed(g) && Frontier(g, sources, k, frontier)
    ensures Ball(g, sources, k + 1) == Ball(g, sources, k) + Step(g, frontier)
    ensures Step(g, frontier) <= g.Keys
    ensures Step(g, frontier) - Ball(g, sources, k) == Ball(g, sources, k + 1) - Ball(g, sources, k)
  {
    var ball := Ball(g, sources, k);
    if k > 0 {
      var prev := Ball(g, sources, k - 1);
      forall v | v in Step(g, ball) ensures v in ball + Step(g, frontier) {
        var u, w :| u in ball && w in Nbrs(g, u) && w == v;
        if u in frontier {
          InStep(g, frontier, u, v);
        } else {
          InStep(g, prev, u, v);
        }
      }
      forall v | v in Step(g, frontier) ensures v in Step(g, ball) {
        var u, w :| u in frontier && w in Nbrs(g, u) && w == v;
        InStep(g, ball, u, v);
      }
    }
  }

  /**
    Lines 106-108: every table id starts at `float('inf')`, then each reached
    node's distance overwrites its entry (adding the reached nodes that are
    not table ids).
  */
  method InfinityThenReached(ids: seq<Id>, reached: map<Id, nat>) returns (d: map<Id, Cell>)
    ensures d.Keys == IdSet(ids) + reached.Keys
    ensures forall v :: v in reached ==> d[v] == Num(reached[v] as real)
    ensures forall v :: v in d && v !in reached ==> d[v] == Inf
  {
    d := map v | v in IdSet(ids) :: Inf;
    var todo := reached.Keys;
    while todo != {}
      invariant todo <= reached.Keys
      invariant d.Keys == IdSet(ids) + (reached.Keys - todo)
      invariant forall v :: v in reached && v !in todo ==> d[v] == Num(reached[v] as real)
      invariant forall v :: v in d && (v !in reached || v in todo) ==> d[v] == Inf
      decreases todo
    {
      ghost var w := Pick(todo);
      var v :| v in todo;
      d := d[v := Num(reached[v] as real)];
      todo := todo - {v};
    }
  }

  /**
    The `Distance_to_Index_Patient` column: one entry per table id, `inf` for
    an id no source reaches and the hop distance otherwise.
  */
  ghost predicate IsDistanceColumn(column: map<Id, Cell>, ids: set<Id>, g: Graph, sources: set<Id>)
  {
    && column.Keys == ids
    && (forall v :: v in column && !Reachable(g, sources, v) ==> column[v] == Inf)
    && (forall v, d: nat :: v in column && HasDistance(g, sources, v, d) ==> column[v] == Num(d as real))
  }

  /**
    What the column says about each id: a source holds 0, an unreachable id
    `inf`, and any other id its hop distance.
  */
  lemma DistanceColumnCell(column: map<Id, Cell>, ids: set<Id>, g: Graph, sources: set<Id>, v: Id)
    requires IsDistanceColumn(column, ids, g, sources) && v in ids
    ensures v in sources ==> column[v] == Num(0.0)
    ensures column[v] == Inf <==> !Reachable(g, sources, v)
    ensures column[v] != Inf ==> exists d: nat :: column[v] == Num(d as real) && HasDistance(g, sources, v, d)
  {
    if v in sources {
      SourceAtZero(g, sources, v);
    }
    ReachableIffDistance(g, sources, v);
  }

  /**
    Two adjacent table ids are both `inf` or both finite, and then their
    distances differ by at most one.
  */
  lemma DistanceColumnNeighbours(column: map<Id, Cell>, ids: set<Id>, g: Graph, sources: set<Id>, u: Id, v: Id)
    requires IsDistanceColumn(column, ids, g, sources) && Symmetric(g)
    requires u in ids && v in ids && v in Nbrs(g, u)
    ensures column[u] == Inf <==> column[v] == Inf
    ensures column[u].Num? && column[v].Num? ==> column[u].x - 1.0 <= column[v].x <= column[u].x + 1.0
  {
    DistanceColumnCell(column, ids, g, sources, u);
    DistanceColumnCell(column, ids, g, sources, v);
    if column[u] != Inf {
      var du: nat :| column[u] == Num(du as real) && HasDistance(g, sources, u, du);
      NeighbourWithinOne(g, sources, u, v, du);
      if column[v] != Inf {
        var dv: nat :| column[v] == Num(dv as real) && HasDistance(g, sources, v, dv);
        AdjacentDistances(g, sources, u, v, du, dv);
      }
    } else if column[v] != Inf {
      var dv: nat :| column[v] == Num(dv as real) && HasDistance(g, sources, v, dv);
      NeighbourWithinOne(g, sources, v, u, dv);
    }
  }
}
