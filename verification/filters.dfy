/** The listing endpoint's equality filters: which query entries become
    conditions, and which rows the resulting where-clause lets through. */
module Filters {
  import opened Tables
  import opened Seqs

  /** The conditions kept from the extra query entries: those whose value is
      not None and whose name is a column of the table. */
  function Conditions(t: Table, filters: map<string, Value>): (conds: map<string, Value>)
    ensures forall k :: k in conds <==> k in filters && filters[k] != Null && k in ColumnNames(t.columns)
    ensures forall k :: k in conds ==> conds[k] == filters[k]
  {
    map k | k in filters && filters[k] != Null && k in ColumnNames(t.columns) :: filters[k]
  }

  /** `and_(*conditions)`: every condition holds of the row. */
  predicate Satisfies(conds: map<string, Value>, row: Row) {
    forall k :: k in conds ==> Cell(row, k) == conds[k]
  }

  function ConditionMatcher(conds: map<string, Value>): Row -> bool {
    row => Satisfies(conds, row)
  }

  /** The row agrees with every non-None filter entry that names a column. */
  predicate PassesFilters(t: Table, filters: map<string, Value>, row: Row) {
    forall k :: k in filters && filters[k] != Null && k in ColumnNames(t.columns) ==> Cell(row, k) == filters[k]
  }

  /** The rows the filtered base query returns: each row of the table that
      passes the filters, as many times as the table holds it, and no other. */
  function Select(t: Table, rows: seq<Row>, filters: map<string, Value>): (r: seq<Row>)
    ensures |r| <= |rows|
    ensures forall row :: row in r <==> row in rows && PassesFilters(t, filters, row)
    ensures forall row :: row in rows ==>
              multiset(r)[row] == (if PassesFilters(t, filters, row) then multiset(rows)[row] else 0)
  {
    var p := ConditionMatcher(Conditions(t, filters));
    assert forall row :: p(row) == PassesFilters(t, filters, row);
    FilterMultiplicity(rows, p);
    Filter(rows, p)
  }

  /** Selection keeps the table's order: selecting from two stretches of rows
      one after the other is selecting from each and concatenating. */
  lemma SelectAppend(t: Table, a: seq<Row>, b: seq<Row>, filters: map<string, Value>)
    ensures Select(t, a + b, filters) == Select(t, a, filters) + Select(t, b, filters)
  {
    FilterAppend(a, b, ConditionMatcher(Conditions(t, filters)));
  }

  /** When no entry survives (no filters, only None values, or only names that
      are not columns) the base query is left unrestricted: every row passes. */
  lemma NoConditionsSelectsAll(t: Table, rows: seq<Row>, filters: map<string, Value>)
    requires forall k :: k in filters ==> filters[k] == Null || k !in ColumnNames(t.columns)
    ensures Select(t, rows, filters) == rows
  {
    assert Conditions(t, filters) == map[];
    FilterKeepsAll(rows, ConditionMatcher(Conditions(t, filters)));
  }
}
