/**
  The neighbour aggregates of `encode_sum_neighbor_*` and
  `encode_mean_neighbor_*`: for every row, the attribute values of the ids in
  that row's own `Connections` list (as listed, repeats included, one-sided
  links not mirrored) reduced by `np.sum` or `np.mean`.
*/
module NeighbourAggregate {
  import opened DataTable

  /** `np.sum` / `np.mean`. */
  datatype Reducer = Sum | Mean

  /** Addition of two cells: NaN absorbs everything, then `inf`, else the real sum. */
  function Plus(a: Cell, b: Cell): Cell
  {
    match (a, b)
    case (NaN, _) => NaN
    case (_, NaN) => NaN
    case (Inf, _) => Inf
    case (_, Inf) => Inf
    case (Num(x), Num(y)) => Num(x + y)
  }

  lemma PlusCommutes(a: Cell, b: Cell)
    ensures Plus(a, b) == Plus(b, a)
  {
  }

  lemma PlusAssociates(a: Cell, b: Cell, c: Cell)
    ensures Plus(a, Plus(b, c)) == Plus(Plus(a, b), c)
  {
  }

  /** `np.sum(xs)`: 0 for the empty list. */
  function SumCells(xs: seq<Cell>): Cell
    decreases |xs|
  {
    if xs == [] then Num(0.0) else Plus(xs[0], SumCells(xs[1..]))
  }

  /** A cell divided by a positive count. */
  function DivideBy(a: Cell, n: nat): Cell
    requires n > 0
  {
    match a
    case Num(x) => Num(x / n as real)
    case Inf => Inf
    case NaN => NaN
  }

  /** `np.mean(xs)`: the sum over the length, and NaN for the empty list. */
  function MeanCells(xs: seq<Cell>): (r: Cell)
    ensures xs == [] ==> r == NaN
    ensures xs != [] ==> r == DivideBy(SumCells(xs), |xs|)
  {
    if xs == [] then NaN else DivideBy(SumCells(xs), |xs|)
  }

  /** Adding an element at the end adds its value: repeats count as often as they occur. */
  lemma {:induction false} SumAppend(xs: seq<Cell>, x: Cell)
    ensures SumCells(xs + [x]) == Plus(SumCells(xs), x)
    decreases |xs|
  {
    if xs == [] {
      assert [] + [x] == [x];
      assert SumCells([x]) == Plus(x, Num(0.0));
      PlusCommutes(x, Num(0.0));
    } else {
      assert (xs + [x])[1..] == xs[1..] + [x];
      SumAppend(xs[1..], x);
      PlusAssociates(xs[0], SumCells(xs[1..]), x);
    }
  }

  lemma PlusSwap(a: Cell, b: Cell, c: Cell)
    ensures Plus(a, Plus(b, c)) == Plus(b, Plus(a, c))
  {
  }

  /** The sum is that of the rest of the list plus the element taken out. */
  lemma {:induction false} SumRemove(xs: seq<Cell>, i: nat)
    requires i < |xs|
    ensures SumCells(xs) == Plus(xs[i], SumCells(xs[..i] + xs[i + 1..]))
    decreases i
  {
    var whole := xs[..i] + xs[i + 1..];
    if i > 0 {
      var tail := xs[1..];
      var rest := tail[..i - 1] + tail[i..];
      SumRemove(tail, i - 1);
      assert tail[i - 1] == xs[i];
      assert whole == [xs[0]] + rest;
      assert whole[0] == xs[0] && whole[1..] == rest;
      assert SumCells(whole) == Plus(xs[0], SumCells(rest));
      assert SumCells(xs) == Plus(xs[0], Plus(xs[i], SumCells(rest)));
      PlusSwap(xs[0], xs[i], SumCells(rest));
    } else {
      assert whole == xs[1..];
    }
  }

  /** Taking element i out of a list takes one occurrence of it out of its multiset. */
  lemma MultisetRemove<T>(ys: seq<T>, i: nat)
    requires i < |ys|
    ensures multiset(ys[..i] + ys[i + 1..]) == multiset(ys) - multiset{ys[i]}
  {
    assert ys == ys[..i] + [ys[i]] + ys[i + 1..];
    assert multiset(ys) == multiset(ys[..i]) + multiset{ys[i]} + multiset(ys[i + 1..]);
  }

  /** An element of a permutation of ys, taken out of ys, leaves a permutation of the rest. */
  lemma TakeOut<T>(xs: seq<T>, ys: seq<T>) returns (i: nat)
    requires xs != [] && multiset(xs) == multiset(ys)
    ensures i < |ys| && ys[i] == xs[0]
    ensures multiset(xs[1..]) == multiset(ys[..i] + ys[i + 1..])
  {
    assert xs[0] in multiset(ys);
    assert xs[0] in ys;
    i :| 0 <= i < |ys| && ys[i] == xs[0];
    MultisetRemove(ys, i);
    MultisetTail(xs);
  }

  /** Dropping the head of a list takes one occurrence of it out of its multiset. */
  lemma MultisetTail<T>(xs: seq<T>)
    requires xs != []
    ensures multiset(xs[1..]) == multiset(xs) - multiset{xs[0]}
  {
    assert xs == [xs[0]] + xs[1..];
  }

  /** The sum does not depend on the order of the list, only on how often each value occurs. */
  lemma {:induction false} SumPermutation(xs: seq<Cell>, ys: seq<Cell>)
    requires multiset(xs) == multiset(ys)
    ensures SumCells(xs) == SumCells(ys)
    decreases |xs|
  {
    if xs != [] {
      var i := TakeOut(xs, ys);
      SumPermutation(xs[1..], ys[..i] + ys[i + 1..]);
      SumRemove(ys, i);
    } else {
      assert ys == [];
    }
  }

  /** The mean does not depend on the order of the list either. */
  lemma MeanPermutation(xs: seq<Cell>, ys: seq<Cell>)
    requires multiset(xs) == multiset(ys)
    ensures MeanCells(xs) == MeanCells(ys)
  {
    assert |xs| == |multiset(xs)| == |ys|;
    SumPermutation(xs, ys);
  }

  /** A list of finite values has a finite sum. */
  lemma {:induction false} SumOfNumbers(xs: seq<Cell>)
    requires forall i :: 0 <= i < |xs| ==> xs[i].Num?
    ensures SumCells(xs).Num?
    decreases |xs|
  {
    if xs != [] {
      SumOfNumbers(xs[1..]);
    }
  }

  /** `[attr[c] for c in cs]`, for a list every id of which has an attribute value. */
  function Gather(cs: seq<Id>, attr: map<Id, Cell>): (r: seq<Cell>)
    requires IdSet(cs) <= attr.Keys
    ensures |r| == |cs| && forall i :: 0 <= i < |cs| ==> r[i] == attr[cs[i]]
  {
    seq(|cs|, i requires 0 <= i < |cs| => attr[cs[i]])
  }

  /**
    The aggregate for one row: `None` is the `KeyError` raised when an id of
    the list has no attribute value; otherwise the sum or mean of the values
    gathered.
  */
  function Aggregate(reducer: Reducer, cs: seq<Id>, attr: map<Id, Cell>): (r: Option<Cell>)
    ensures r.None? <==> exists i :: 0 <= i < |cs| && cs[i] !in attr
    ensures r.Some? && reducer == Sum ==> r.value == SumCells(Gather(cs, attr))
    ensures r.Some? && reducer == Mean ==> r.value == MeanCells(Gather(cs, attr))
  {
    if IdSet(cs) <= attr.Keys then
      Some(if reducer == Sum then SumCells(Gather(cs, attr)) else MeanCells(Gather(cs, attr)))
    else
      None
  }

  /** An empty list sums to 0 and has a NaN mean. */
  lemma AggregateOfNothing(attr: map<Id, Cell>)
    ensures Aggregate(Sum, [], attr) == Some(Num(0.0))
    ensures Aggregate(Mean, [], attr) == Some(NaN)
  {
  }

  lemma GatherRemove(cs: seq<Id>, attr: map<Id, Cell>, i: nat)
    requires IdSet(cs) <= attr.Keys && i < |cs|
    ensures IdSet(cs[..i] + cs[i + 1..]) <= attr.Keys
    ensures Gather(cs, attr)[..i] + Gather(cs, attr)[i + 1..] == Gather(cs[..i] + cs[i + 1..], attr)
  {
    var rest := cs[..i] + cs[i + 1..];
    forall c | c in rest ensures c in attr {
      assert c in cs[..i] || c in cs[i + 1..];
    }
  }

  /** Reordering a connection list does not change its sum. */
  lemma {:induction false} GatheredSumPermutation(cs: seq<Id>, ds: seq<Id>, attr: map<Id, Cell>)
    requires multiset(cs) == multiset(ds) && IdSet(cs) <= attr.Keys && IdSet(ds) <= attr.Keys
    ensures SumCells(Gather(cs, attr)) == SumCells(Gather(ds, attr))
    decreases |cs|
  {
    if cs != [] {
      var i := TakeOut(cs, ds);
      var rest := ds[..i] + ds[i + 1..];
      GatherRemove(ds, attr, i);
      assert IdSet(cs[1..]) <= attr.Keys by {
        forall c | c in cs[1..] ensures c in attr { assert c in cs; }
      }
      GatheredSumPermutation(cs[1..], rest, attr);
      SumRemove(Gather(ds, attr), i);
      assert Gather(cs[1..], attr) == Gather(cs, attr)[1..];
    } else {
      assert ds == [];
    }
  }

  /**
    The aggregate of a row depends only on how often each id occurs in its
    connection list, not on their order; a missing id fails either way.
  */
  lemma AggregatePermutation(reducer: Reducer, cs: seq<Id>, ds: seq<Id>, attr: map<Id, Cell>)
    requires multiset(cs) == multiset(ds)
    ensures Aggregate(reducer, cs, attr) == Aggregate(reducer, ds, attr)
  {
    forall c ensures c in cs <==> c in ds {
      assert c in cs <==> c in multiset(cs);
      assert c in ds <==> c in multiset(ds);
    }
    if IdSet(cs) <= attr.Keys {
      GatheredSumPermutation(cs, ds, attr);
      assert |cs| == |multiset(cs)| == |ds|;
    }
  }

  /** Listing one more id adds its value to the sum, whether or not it is listed already. */
  lemma AggregateAppend(cs: seq<Id>, c: Id, attr: map<Id, Cell>)
    requires IdSet(cs) <= attr.Keys && c in attr
    ensures Aggregate(Sum, cs + [c], attr) == Some(Plus(SumCells(Gather(cs, attr)), attr[c]))
  {
    assert Gather(cs + [c], attr) == Gather(cs, attr) + [attr[c]];
    SumAppend(Gather(cs, attr), attr[c]);
  }

  /** The mean of a non-empty list is its sum divided by its length, repeats included. */
  lemma MeanIsSumOverLength(cs: seq<Id>, attr: map<Id, Cell>)
    requires cs != [] && IdSet(cs) <= attr.Keys
    requires forall c :: c in cs ==> attr[c].Num?
    ensures Aggregate(Sum, cs, attr).Some? && Aggregate(Sum, cs, attr).value.Num?
    ensures Aggregate(Mean, cs, attr) == Some(Num(Aggregate(Sum, cs, attr).value.x / |cs| as real))
  {
    var xs := Gather(cs, attr);
    forall i | 0 <= i < |xs| ensures xs[i].Num? {
      var c := cs[i];
      assert c in cs && xs[i] == attr[c];
    }
    SumOfNumbers(xs);
  }

  /**
    A repeated id is counted each time: a row listing the same neighbour twice
    gets twice its value, and the same mean as listing it once.
  */
  lemma RepeatsCount(c: Id, x: real)
    ensures Aggregate(Sum, [c, c], map[c := Num(x)]) == Some(Num(x + x))
    ensures Aggregate(Sum, [c], map[c := Num(x)]) == Some(Num(x))
    ensures Aggregate(Mean, [c, c], map[c := Num(x)]) == Some(Num(x))
  {
    var attr := map[c := Num(x)];
    assert Gather([c, c], attr) == [Num(x), Num(x)];
    assert Gather([c], attr) == [Num(x)];
    assert SumCells([Num(x)]) == Num(x);
    assert [Num(x), Num(x)][1..] == [Num(x)];
  }

  /** The eleven neighbour features of the table, each an attribute column and a reducer. */
  datatype NeighbourFeature =
    | SumAge | SumConstitution | SumBehaviour | SumDegree | SumDegreeCentrality
    | MeanAge | MeanConstitution | MeanBehaviour | MeanDegree | MeanDegreeCentrality
    | MeanClusteringCoefficient

  function Reduction(f: NeighbourFeature): Reducer
  {
    match f
    case SumAge | SumConstitution | SumBehaviour | SumDegree | SumDegreeCentrality => Sum
    case _ => Mean
  }

  /** The column the feature reads. */
  function Source(f: NeighbourFeature): string
  {
    match f
    case SumAge | MeanAge => "Age"
    case SumConstitution | MeanConstitution => "Constitution"
    case SumBehaviour | MeanBehaviour => "Behaviour"
    case SumDegree | MeanDegree => DEGREES
    case SumDegreeCentrality | MeanDegreeCentrality => DEGREE_CENTRALITY
    case MeanClusteringCoefficient => "Clustering_Coefficient"
  }

  /** The column the feature writes. */
  function Target(f: NeighbourFeature): string
  {
    match f
    case SumAge => "Sum_Neighbor_Age"
    case SumConstitution => "Sum_Neighbor_Constitution"
    case SumBehaviour => "Sum_Neighbor_Behaviour"
    case SumDegree => "Sum_Neighbor_Degree"
    case SumDegreeCentrality => "Sum_Neighbor_Degree_Centrality"
    case MeanAge => "Mean_Neighbor_Age"
    case MeanConstitution => "Mean_Neighbor_Constitution"
    case MeanBehaviour => "Mean_Neighbor_Behaviour"
    case MeanDegree => "Mean_Neighbor_Degree"
    case MeanDegreeCentrality => "Mean_Neighbor_Degree_Centrality"
    case MeanClusteringCoefficient => "Mean_Neighbor_Clustering_Coefficient"
  }

  /**
    The new column of a neighbour feature: for every row, the aggregate of the
    source column over the row's connection list; `None` when any row lists an
    id the source column does not have.
  */
  function FeatureColumn(t: Table, f: NeighbourFeature): (r: Option<map<Id, Cell>>)
    requires WellFormed(t) && Source(f) in t.columns
    ensures r.None? <==> exists v, c :: v in t.order && c in t.connections[v] && c !in t.columns[Source(f)]
    ensures r.Some? ==> r.value.Keys == Ids(t)
    ensures r.Some? ==> forall v :: v in r.value ==>
      Some(r.value[v]) == Aggregate(Reduction(f), t.connections[v], t.columns[Source(f)])
  {
    var attr := t.columns[Source(f)];
    if forall v, c :: v in t.order && c in t.connections[v] ==> c in attr then
      Some(map v | v in Ids(t) :: Aggregate(Reduction(f), t.connections[v], attr).value)
    else
      None
  }
}
