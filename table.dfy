/**
  The individuals table (`data_df` of utils_data/PopulationData.py): an index of
  unique ids in row order, the two non-numeric columns `Population` and
  `Connections` (already parsed into id lists), and every other column by name,
  each a map keyed by id.
*/
module DataTable {

  type Id = int
  type Label = string

  datatype Option<T> = None | Some(value: T)

  /** A numeric cell: a finite value, `float('inf')`, or NaN (`np.mean([])`). */
  datatype Cell = Num(x: real) | Inf | NaN

  const POPULATION := "Population"
  const CONNECTIONS := "Connections"
  const TRAIN := "Train"
  const INFECTED := "Infected"
  const INDEX_PATIENT := "Index_Patient"
  const DEGREES := "Degrees"
  const DEGREE_CENTRALITY := "Degree_Centrality"
  const CONNECTED_INDEX_PATIENT := "Connected_Index_Patient"
  const DISTANCE_TO_INDEX_PATIENT := "Distance_to_Index_Patient"

  datatype Table = Table(
    order: seq<Id>,
    population: map<Id, Label>,
    connections: map<Id, seq<Id>>,
    columns: map<string, map<Id, Cell>>)

  /** The elements of an id list, as a set. */
  function IdSet(s: seq<Id>): (r: set<Id>)
    ensures forall x :: x in r <==> x in s
  {
    set x | x in s
  }

  function Ids(t: Table): set<Id>
  {
    IdSet(t.order)
  }

  predicate Distinct(s: seq<Id>)
  {
    forall i, j :: 0 <= i < j < |s| ==> s[i] != s[j]
  }

  /** A set that is not empty has an element to pick. */
  lemma Pick<T>(s: set<T>) returns (x: T)
    requires s != {}
    ensures x in s
  {
    x :| x in s;
  }

  /** The index is a primary key and every column has one entry per row. */
  predicate WellFormed(t: Table)
  {
    && Distinct(t.order)
    && t.population.Keys == Ids(t)
    && t.connections.Keys == Ids(t)
    && POPULATION !in t.columns
    && CONNECTIONS !in t.columns
    && forall c :: c in t.columns ==> t.columns[c].Keys == Ids(t)
  }

  /** `data_df.columns`: the two typed columns and the numeric ones. */
  function ColumnNames(t: Table): set<string>
  {
    {POPULATION, CONNECTIONS} + t.columns.Keys
  }

  /** Assigning `data_df[name] = column`: a new or replaced column. */
  function WithColumn(t: Table, name: string, column: map<Id, Cell>): (r: Table)
    requires WellFormed(t) && column.Keys == Ids(t)
    requires name != POPULATION && name != CONNECTIONS
    ensures WellFormed(r)
    ensures r.order == t.order && r.population == t.population && r.connections == t.connections
    ensures r.columns.Keys == t.columns.Keys + {name}
    ensures r.columns[name] == column
    ensures forall c :: c in t.columns && c != name ==> r.columns[c] == t.columns[c]
  {
    t.(columns := t.columns[name := column])
  }
}
