/** The five route handlers of a table's router, over an in-memory table:
    the table's rows as a sequence, in the order the database returns them.
    Mutating handlers return the rows as they stand after the commit. */
module Handlers {
  import opened Wrappers
  import opened Tables
  import opened Schemas
  import opened Pagination
  import opened Filters
  import opened Seqs

  /** `GET /{table}/`: one page of the rows matching the filters, with the
      count of all matching rows and the page count. Paging outside the
      declared bounds is rejected; a page past the end is empty, not an error. */
  function GetAll(t: Table, rows: seq<Row>, page: int, size: int, filters: map<string, Value>)
    : (r: Result<Envelope, Error>)
    ensures r.Success? <==> ValidPaging(page, size)
    ensures r.Failure? ==> r.error == InvalidQuery
    ensures r.Success? ==> r.value.page == page && r.value.size == size
    ensures r.Success? ==> r.value.total == |Select(t, rows, filters)|
    ensures r.Success? ==> r.value.pages == PageCount(r.value.total, size)
    ensures r.Success? ==> |r.value.items| <= size
    ensures r.Success? ==> IsWindow(r.value.items, Select(t, rows, filters), Offset(page, size), size)
  {
    if !ValidPaging(page, size) then Failure(InvalidQuery)
    else
      var matching := Select(t, rows, filters);
      var items := PageSlice(matching, Offset(page, size), size);
      Success(Envelope(items, |matching|, page, size, PageCount(|matching|, size)))
  }

  /** `GET /{table}/{id}`: the first row whose key column (first primary-key
      column, else first column) equals `id`; not found when there is none.
      A table with neither raises before any query is made. */
  function GetSingle(t: Table, rows: seq<Row>, id: int): (r: Result<Row, Error>)
    ensures KeyColumn(t).None? ==> r == Failure(NoColumns)
    ensures KeyColumn(t).Some? ==>
              (r.Success? <==> exists i :: 0 <= i < |rows| && MatchesKey(KeyColumn(t).value, id, rows[i]))
    ensures KeyColumn(t).Some? && r.Failure? ==> r.error == NotFound
    ensures r.Success? ==>
              exists i :: 0 <= i < |rows| && rows[i] == r.value
                && MatchesKey(KeyColumn(t).value, id, rows[i])
                && forall j :: 0 <= j < i ==> !MatchesKey(KeyColumn(t).value, id, rows[j])
  {
    match KeyColumn(t)
    case None => Failure(NoColumns)
    case Some(k) =>
      match FirstIndex(rows, KeyMatcher(k, id))
      case None => Failure(NotFound)
      case Some(i) => Success(rows[i])
  }

  /** `POST /{table}/`: validate the body against the create schema and append
      the full record, unset nullable columns being None. */
  function CreateItem(t: Table, rows: seq<Row>, body: map<string, Value>)
    : (r: Result<(seq<Row>, Row), Error>)
    ensures ValidTable(t) ==> (r.Success? <==> HasRequiredFields(t, body))
    ensures r.Failure? ==> r.error == InvalidBody
    ensures r.Success? ==> r.value.0 == rows + [r.value.1]
    ensures r.Success? ==> forall n :: n in r.value.1 <==> n in ColumnNames(t.columns)
    ensures r.Success? ==> forall n :: n in r.value.1 && n in body ==> r.value.1[n] == body[n]
    ensures r.Success? && ValidTable(t) ==>
              forall c :: c in t.columns && c.name !in body ==> r.value.1[c.name] == Null
  {
    var schema := CreateSchema(t);
    CreateSchemaAccepts(t, body);
    var data :- ValidateBody(schema, body);
    var row := Dump(schema, data);
    Success((rows + [row], row))
  }

  /** The rows after `update(table).where(all identifier columns == id).values(data)`. */
  function UpdateRows(t: Table, rows: seq<Row>, id: int, data: map<string, Value>): (r: seq<Row>)
    ensures |r| == |rows|
    ensures forall i :: 0 <= i < |rows| && !MatchesId(t, id, rows[i]) ==> r[i] == rows[i]
    ensures forall i, k :: 0 <= i < |rows| && MatchesId(t, id, rows[i]) && k in data ==>
              k in r[i] && r[i][k] == data[k]
    ensures forall i, k :: 0 <= i < |rows| && MatchesId(t, id, rows[i]) && k !in data ==>
              (k in r[i] <==> k in rows[i]) && Cell(r[i], k) == Cell(rows[i], k)
  {
    seq(|rows|, i requires 0 <= i < |rows| => if MatchesId(t, id, rows[i]) then rows[i] + data else rows[i])
  }

  /** `PUT /{table}/{id}`: validate the body against the create schema, then
      write only the fields it sets into every row whose identifier columns
      all equal `id`; the first updated row is returned, and no matching row
      is not found. */
  function UpdateItem(t: Table, rows: seq<Row>, id: int, body: map<string, Value>)
    : (r: Result<(seq<Row>, Row), Error>)
    ensures ValidTable(t) ==> (r == Failure(InvalidBody) <==> !HasRequiredFields(t, body))
    ensures ValidTable(t) && HasRequiredFields(t, body) ==>
              (r.Success? <==> exists i :: 0 <= i < |rows| && MatchesId(t, id, rows[i]))
    ensures r.Failure? ==> r.error == InvalidBody || r.error == NotFound
    ensures r.Success? ==> |r.value.0| == |rows|
    ensures r.Success? ==> forall i :: 0 <= i < |rows| && !MatchesId(t, id, rows[i]) ==> r.value.0[i] == rows[i]
    ensures r.Success? ==>
              forall i, k :: (0 <= i < |rows| && MatchesId(t, id, rows[i])
                                && k in body && k in ColumnNames(t.columns)) ==>
                k in r.value.0[i] && r.value.0[i][k] == body[k]
    ensures r.Success? ==>
              forall i, k :: (0 <= i < |rows| && MatchesId(t, id, rows[i])
                                && !(k in body && k in ColumnNames(t.columns))) ==>
                (k in r.value.0[i] <==> k in rows[i]) && Cell(r.value.0[i], k) == Cell(rows[i], k)
    ensures r.Success? ==>
              exists i :: (0 <= i < |rows| && MatchesId(t, id, rows[i])
                           && (forall j :: 0 <= j < i ==> !MatchesId(t, id, rows[j]))
                           && r.value.1 == r.value.0[i])
  {
    var schema := CreateSchema(t);
    CreateSchemaAccepts(t, body);
    var data :- ValidateBody(schema, body);
    var updated := UpdateRows(t, rows, id, data);
    match FirstIndex(rows, IdMatcher(t, id))
    case None => Failure(NotFound)
    case Some(i) => Success((updated, updated[i]))
  }

  /** The rows a delete of `id` leaves: those not matching every identifier
      column, each as often as the table holds it, in the table's order. */
  function Survivors(t: Table, rows: seq<Row>, id: int): (r: seq<Row>)
    ensures |r| <= |rows|
    ensures forall row :: row in r <==> row in rows && !MatchesId(t, id, row)
    ensures forall row :: row in rows ==>
              multiset(r)[row] == (if MatchesId(t, id, row) then 0 else multiset(rows)[row])
    ensures |r| == |rows| <==> forall row :: row in rows ==> !MatchesId(t, id, row)
  {
    var p := Negate(IdMatcher(t, id));
    assert forall row :: p(row) == !MatchesId(t, id, row);
    FilterLengthUnchangedIff(rows, p);
    FilterMultiplicity(rows, p);
    Filter(rows, p)
  }

  /** A delete keeps the surviving rows in order: the survivors of two
      stretches of rows are those of each, concatenated. */
  lemma SurvivorsAppend(t: Table, a: seq<Row>, b: seq<Row>, id: int)
    ensures Survivors(t, a + b, id) == Survivors(t, a, id) + Survivors(t, b, id)
  {
    FilterAppend(a, b, Negate(IdMatcher(t, id)));
  }

  /** `DELETE /{table}/{id}`: remove every row whose identifier columns all
      equal `id`; removing nothing is not found. */
  function DeleteItem(t: Table, rows: seq<Row>, id: int): (r: Result<seq<Row>, Error>)
    ensures r.Success? <==> exists i :: 0 <= i < |rows| && MatchesId(t, id, rows[i])
    ensures r.Failure? ==> r.error == NotFound
    ensures r.Success? ==> |r.value| < |rows|
    ensures r.Success? ==> forall row :: row in r.value <==> row in rows && !MatchesId(t, id, row)
    ensures r.Success? ==> forall row :: row in rows ==>
              multiset(r.value)[row] == (if MatchesId(t, id, row) then 0 else multiset(rows)[row])
    ensures r.Success? ==> r.value == Survivors(t, rows, id)
  {
    var remaining := Survivors(t, rows, id);
    assert forall i :: 0 <= i < |rows| ==> rows[i] in rows;
    var rowcount := |rows| - |remaining|;
    if rowcount == 0 then Failure(NotFound) else Success(remaining)
  }
}
