/** Properties relating several handler calls: listing every page gives back
    every matching row; a created row can be fetched; an update or delete is
    seen by a later fetch exactly when the table has a single identifier
    column; and the composite-key asymmetry between fetch and delete. */
module HandlerLemmas {
  import opened Wrappers
  import opened Tables
  import opened Schemas
  import opened Pagination
  import opened Filters
  import opened Handlers

  /** The items a listing request for each page number returns (nothing when
      the request is rejected). */
  function PageItems(t: Table, rows: seq<Row>, size: int, filters: map<string, Value>): nat -> seq<Row> {
    page => var r := GetAll(t, rows, page, size, filters); if r.Success? then r.value.items else []
  }

  /** The items of pages 1 through `n` of the listing, one page after another. */
  function ListedItems(t: Table, rows: seq<Row>, size: int, filters: map<string, Value>, n: nat): seq<Row>
    requires 1 <= size <= MaxSize
  {
    Concatenated(PageItems(t, rows, size, filters), n)
  }

  /** Requesting pages 1 through `n` in turn yields the first `n` slices of
      the selected rows. */
  lemma {:induction false} ListedItemsArePages(t: Table, rows: seq<Row>, size: int, filters: map<string, Value>, n: nat)
    requires 1 <= size <= MaxSize
    ensures ListedItems(t, rows, size, filters, n) == AllPages(Select(t, rows, filters), size, n)
  {
    var matching := Select(t, rows, filters);
    forall k | 1 <= k <= n
      ensures PageItems(t, rows, size, filters)(k) == PageSlice(matching, Offset(k, size), size)
    {
      ListingPage(t, rows, k, size, filters);
    }
    ConcatenatedSlices(PageItems(t, rows, size, filters), matching, size, n);
  }

  /** A listed page is the `OFFSET/LIMIT` slice of the selected rows. */
  lemma ListingPage(t: Table, rows: seq<Row>, page: int, size: int, filters: map<string, Value>)
    requires ValidPaging(page, size)
    ensures GetAll(t, rows, page, size, filters).value.items
            == PageSlice(Select(t, rows, filters), Offset(page, size), size)
  {
  }

  /** Fetching pages 1 through `pages` returns every row that matches the
      filters, once each and in order, so the page lengths sum to `total`. */
  lemma ListingCoversSelection(t: Table, rows: seq<Row>, size: int, filters: map<string, Value>)
    requires 1 <= size <= MaxSize
    ensures var e := GetAll(t, rows, DefaultPage, size, filters).value;
            && ListedItems(t, rows, size, filters, e.pages) == Select(t, rows, filters)
            && |ListedItems(t, rows, size, filters, e.pages)| == e.total
  {
    var e := GetAll(t, rows, DefaultPage, size, filters).value;
    ListedItemsArePages(t, rows, size, filters, e.pages);
    PagesCoverAll(Select(t, rows, filters), size);
  }

  /** Without filters, listing every page returns the whole table in order,
      and `total` is the number of rows. */
  lemma UnfilteredListingCoversTable(t: Table, rows: seq<Row>, size: int)
    requires 1 <= size <= MaxSize
    ensures var e := GetAll(t, rows, DefaultPage, size, map[]).value;
            && e.total == |rows|
            && ListedItems(t, rows, size, map[], e.pages) == rows
  {
    NoConditionsSelectsAll(t, rows, map[]);
    ListingCoversSelection(t, rows, size, map[]);
  }

  /** A listing request that gives neither `page` nor `size` gets the
      defaults 1 and 10: the first ten selected rows (or all, if fewer). */
  lemma DefaultListingIsFirstPage(t: Table, rows: seq<Row>, filters: map<string, Value>)
    ensures var r := GetAll(t, rows, DefaultPage, DefaultSize, filters);
            var matching := Select(t, rows, filters);
            && r.Success?
            && r.value.page == 1 && r.value.size == 10
            && r.value.items == matching[..if |matching| < 10 then |matching| else 10]
  {
    var matching := Select(t, rows, filters);
    assert Offset(DefaultPage, DefaultSize) == 0;
    ListingPage(t, rows, DefaultPage, DefaultSize, filters);
    assert PageSlice(matching, 0, 10) == matching[..if |matching| < 10 then |matching| else 10];
  }

  /** A page number past the page count yields an empty page, not an error. */
  lemma PagePastEndIsEmpty(t: Table, rows: seq<Row>, page: int, size: int, filters: map<string, Value>)
    requires ValidPaging(page, size)
    requires page > GetAll(t, rows, page, size, filters).value.pages
    ensures GetAll(t, rows, page, size, filters).Success?
    ensures GetAll(t, rows, page, size, filters).value.items == []
  {
    PageBeyondLastIsEmpty(Select(t, rows, filters), page, size);
  }

  /** Any row update or delete would touch is found by get-single as well:
      whenever a delete succeeds, the fetch before it succeeds too. */
  lemma IdentifiedRowIsFetchable(t: Table, rows: seq<Row>, id: int)
    requires KeyColumn(t).Some?
    requires DeleteItem(t, rows, id).Success?
    ensures GetSingle(t, rows, id).Success?
  {
    var i :| 0 <= i < |rows| && MatchesId(t, id, rows[i]);
    IdMatchImpliesKeyMatch(t, id, rows[i]);
  }

  /** Get-single returns the row at the first position whose key column equals `id`. */
  lemma GetSingleFindsFirst(t: Table, rows: seq<Row>, id: int, i: int)
    requires KeyColumn(t).Some?
    requires 0 <= i < |rows| && MatchesKey(KeyColumn(t).value, id, rows[i])
    requires forall j :: 0 <= j < i ==> !MatchesKey(KeyColumn(t).value, id, rows[j])
    ensures GetSingle(t, rows, id) == Success(rows[i])
  {
    var k := KeyColumn(t).value;
    var r := GetSingle(t, rows, id);
    var g :| 0 <= g < |rows| && rows[g] == r.value && MatchesKey(k, id, rows[g])
             && forall j :: 0 <= j < g ==> !MatchesKey(k, id, rows[j]);
    assert g == i;
  }

  /** A created row whose key column holds a fresh `id` is what get-single
      returns for `id` afterwards (the row carries the body's values, by the
      contract of `CreateItem`). */
  lemma CreateThenGet(t: Table, rows: seq<Row>, body: map<string, Value>, id: int)
    requires ValidTable(t) && KeyColumn(t).Some?
    requires CreateItem(t, rows, body).Success?
    requires KeyColumn(t).value in body && body[KeyColumn(t).value] == Int(id)
    requires forall row :: row in rows ==> !MatchesKey(KeyColumn(t).value, id, row)
    ensures var created := CreateItem(t, rows, body).value;
            GetSingle(t, created.0, id) == Success(created.1)
  {
    var k := KeyColumn(t).value;
    var created := CreateItem(t, rows, body).value;
    CreatedRowHasKey(t, rows, body, id);
    CreateKeepsEarlierRows(t, rows, body, id, k);
    GetSingleFindsFirst(t, created.0, id, |rows|);
  }

  lemma CreatedRowHasKey(t: Table, rows: seq<Row>, body: map<string, Value>, id: int)
    requires ValidTable(t) && KeyColumn(t).Some?
    requires CreateItem(t, rows, body).Success?
    requires KeyColumn(t).value in body && body[KeyColumn(t).value] == Int(id)
    ensures MatchesKey(KeyColumn(t).value, id, CreateItem(t, rows, body).value.1)
  {
    var k := KeyColumn(t).value;
    assert k in IdentifierColumns(t);
    assert k in ColumnNames(t.columns);
  }

  lemma CreateKeepsEarlierRows(t: Table, rows: seq<Row>, body: map<string, Value>, id: int, k: string)
    requires CreateItem(t, rows, body).Success?
    requires forall row :: row in rows ==> !MatchesKey(k, id, row)
    ensures forall j :: 0 <= j < |rows| ==> !MatchesKey(k, id, CreateItem(t, rows, body).value.0[j])
  {
    var created := CreateItem(t, rows, body).value;
    forall j | 0 <= j < |rows|
      ensures !MatchesKey(k, id, created.0[j])
    {
      assert created.0[j] == rows[j];
      assert rows[j] in rows;
    }
  }

  /** On a table with one identifier column, an update that leaves the key
      column alone (or writes `id` into it) is what get-single returns next. */
  lemma UpdateThenGet(t: Table, rows: seq<Row>, id: int, body: map<string, Value>)
    requires ValidTable(t) && |IdentifierColumns(t)| == 1
    requires UpdateItem(t, rows, id, body).Success?
    requires KeyColumn(t).value in body ==> body[KeyColumn(t).value] == Int(id)
    ensures var updated := UpdateItem(t, rows, id, body).value;
            GetSingle(t, updated.0, id) == Success(updated.1)
  {
    var k := KeyColumn(t).value;
    var updated := UpdateItem(t, rows, id, body).value;
    var after := updated.0;
    var i :| 0 <= i < |rows| && MatchesId(t, id, rows[i])
             && (forall j :: 0 <= j < i ==> !MatchesId(t, id, rows[j])) && updated.1 == after[i];
    assert k in IdentifierColumns(t);
    assert k in ColumnNames(t.columns);
    forall j | 0 <= j < i
      ensures !MatchesKey(k, id, after[j])
    {
      IdMatchImpliesKeyMatch(t, id, rows[j]);
      assert after[j] == rows[j];
    }
    IdMatchImpliesKeyMatch(t, id, rows[i]);
    assert MatchesKey(k, id, after[i]) by {
      if k in body {
        assert k in after[i] && after[i][k] == body[k];
      } else {
        assert Cell(after[i], k) == Cell(rows[i], k);
      }
    }
    GetSingleFindsFirst(t, after, id, i);
  }

  /** After a successful delete no row matches the identifier, so deleting
      again is not found. */
  lemma DeleteTwiceNotFound(t: Table, rows: seq<Row>, id: int)
    requires DeleteItem(t, rows, id).Success?
    ensures DeleteItem(t, DeleteItem(t, rows, id).value, id) == Failure(NotFound)
  {
    var after := DeleteItem(t, rows, id).value;
    assert forall i :: 0 <= i < |after| ==> after[i] in after;
  }

  /** On a table with one identifier column, a fetch after a successful
      delete of `id` is not found. */
  lemma DeleteThenGet(t: Table, rows: seq<Row>, id: int)
    requires |IdentifierColumns(t)| == 1
    requires DeleteItem(t, rows, id).Success?
    ensures GetSingle(t, DeleteItem(t, rows, id).value, id) == Failure(NotFound)
  {
    var after := DeleteItem(t, rows, id).value;
    forall i | 0 <= i < |after|
      ensures !MatchesKey(KeyColumn(t).value, id, after[i])
    {
      assert after[i] in after;
      IdMatchImpliesKeyMatch(t, id, after[i]);
    }
  }
}
