/**
  The index patients of the table and the `Connected_Index_Patient` column of
  `encode_connected_index_patient`: a population -> index patient dictionary
  built with `dict(zip(...))` over the index-patient rows in table order, then
  looked up for every row.
*/
module IndexPatients {
  import opened DataTable

  /** The row of v is flagged `Index_Patient == 1`. */
  predicate IsIndexPatient(flags: map<Id, Cell>, v: Id)
  {
    v in flags && flags[v] == Num(1.0)
  }

  /** The ids of the index-patient rows (the sources of the distance computation). */
  function IndexPatientIds(t: Table): (r: set<Id>)
    requires INDEX_PATIENT in t.columns
    ensures forall v :: v in r <==> v in t.order && IsIndexPatient(t.columns[INDEX_PATIENT], v)
  {
    set v | v in t.order && IsIndexPatient(t.columns[INDEX_PATIENT], v)
  }

  /** Row i holds an index patient of population p. */
  ghost predicate IndexPatientAt(order: seq<Id>, flags: map<Id, Cell>, population: map<Id, Label>, i: int, p: Label)
  {
    0 <= i < |order| && IsIndexPatient(flags, order[i]) && order[i] in population && population[order[i]] == p
  }

  /**
    `dict(zip(index_patients['Population'], index_patients.index))`, over the
    index-patient rows in table order: a later row's entry replaces an earlier
    one of the same population.
  */
  function IndexPatientByPopulation(order: seq<Id>, flags: map<Id, Cell>, population: map<Id, Label>): map<Label, Id>
    requires IdSet(order) <= population.Keys
    decreases |order|
  {
    if order == [] then map[]
    else
      var n := |order| - 1;
      var v := order[n];
      assert IdSet(order[..n]) <= IdSet(order);
      var earlier := IndexPatientByPopulation(order[..n], flags, population);
      if IsIndexPatient(flags, v) then earlier[population[v] := v] else earlier
  }

  /**
    A population has an entry exactly when some row holds an index patient of
    it, and the entry is the last such row in table order.
  */
  lemma {:induction false} ByPopulationIsLast(order: seq<Id>, flags: map<Id, Cell>, population: map<Id, Label>, p: Label)
    requires IdSet(order) <= population.Keys
    ensures var r := IndexPatientByPopulation(order, flags, population);
      p in r <==> exists i :: IndexPatientAt(order, flags, population, i, p)
    ensures var r := IndexPatientByPopulation(order, flags, population);
      p in r ==> exists i ::
        && IndexPatientAt(order, flags, population, i, p) && order[i] == r[p]
        && forall j :: i < j < |order| ==> !IndexPatientAt(order, flags, population, j, p)
    decreases |order|
  {
    if order != [] {
      var n := |order| - 1;
      var v := order[n];
      var prefix := order[..n];
      assert IdSet(prefix) <= IdSet(order);
      ByPopulationIsLast(prefix, flags, population, p);
      forall i | 0 <= i < n
        ensures IndexPatientAt(prefix, flags, population, i, p) <==> IndexPatientAt(order, flags, population, i, p)
      {
        assert prefix[i] == order[i];
      }
      var r := IndexPatientByPopulation(order, flags, population);
      if IndexPatientAt(order, flags, population, n, p) {
        assert r[p] == v;
      } else {
        if exists i :: IndexPatientAt(order, flags, population, i, p) {
          var i :| IndexPatientAt(order, flags, population, i, p);
          assert i < n;
          assert IndexPatientAt(prefix, flags, population, i, p);
        }
        if p in r {
          var i :| && IndexPatientAt(prefix, flags, population, i, p)
                   && prefix[i] == r[p]
                   && forall j :: i < j < |prefix| ==> !IndexPatientAt(prefix, flags, population, j, p);
          assert IndexPatientAt(order, flags, population, i, p);
          forall j | i < j < |order| ensures !IndexPatientAt(order, flags, population, j, p) {
            if j < n {
              assert !IndexPatientAt(prefix, flags, population, j, p);
            }
          }
        }
      }
    }
  }

  /**
    The `Connected_Index_Patient` column: every row gets the id of the index
    patient its population maps to; `None` is the `KeyError` of a row whose
    population has no index patient, and also the table with no rows: pandas
    then calls the lookup once on a row of NaN, whose `KeyError` makes `apply`
    return the whole empty frame, and assigning that frame to one column
    raises `ValueError`.
  */
  function ConnectedIndexPatientColumn(t: Table): (r: Option<map<Id, Cell>>)
    requires WellFormed(t) && INDEX_PATIENT in t.columns
    ensures r.Some? ==> r.value.Keys == Ids(t)
  {
    var byPopulation := IndexPatientByPopulation(t.order, t.columns[INDEX_PATIENT], t.population);
    if t.order != [] && forall v :: v in t.order ==> t.population[v] in byPopulation then
      Some(map v | v in Ids(t) :: Num(byPopulation[t.population[v]] as real))
    else
      None
  }

  /** The column fails exactly when the table has no rows or some row's population has no index patient. */
  lemma ConnectedIndexPatientFails(t: Table)
    requires WellFormed(t) && INDEX_PATIENT in t.columns
    ensures ConnectedIndexPatientColumn(t).None? <==>
      t.order == [] || exists v :: v in t.order && forall i :: !IndexPatientAt(t.order, t.columns[INDEX_PATIENT], t.population, i, t.population[v])
  {
    var flags := t.columns[INDEX_PATIENT];
    var byPopulation := IndexPatientByPopulation(t.order, flags, t.population);
    if ConnectedIndexPatientColumn(t).None? && t.order != [] {
      var v :| v in t.order && t.population[v] !in byPopulation;
      ByPopulationIsLast(t.order, flags, t.population, t.population[v]);
    }
    if exists v :: v in t.order && forall i :: !IndexPatientAt(t.order, flags, t.population, i, t.population[v]) {
      var v :| v in t.order && forall i :: !IndexPatientAt(t.order, flags, t.population, i, t.population[v]);
      ByPopulationIsLast(t.order, flags, t.population, t.population[v]);
    }
  }

  /**
    When the column exists, each row holds the id of an index patient of its
    own population, the last one in table order.
  */
  lemma ConnectedIndexPatientOfRow(t: Table, v: Id)
    requires WellFormed(t) && INDEX_PATIENT in t.columns
    requires v in t.order && ConnectedIndexPatientColumn(t).Some?
    ensures exists i ::
      && IndexPatientAt(t.order, t.columns[INDEX_PATIENT], t.population, i, t.population[v])
      && ConnectedIndexPatientColumn(t).value[v] == Num(t.order[i] as real)
      && forall j :: i < j < |t.order| ==> !IndexPatientAt(t.order, t.columns[INDEX_PATIENT], t.population, j, t.population[v])
  {
    var flags := t.columns[INDEX_PATIENT];
    var byPopulation := IndexPatientByPopulation(t.order, flags, t.population);
    var p := t.population[v];
    ByPopulationIsLast(t.order, flags, t.population, p);
    assert ConnectedIndexPatientColumn(t).value[v] == Num(byPopulation[p] as real);
  }
}
