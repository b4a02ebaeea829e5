# AutoCrud router core, modelled in Dafny

AutoCrud reflects a relational database's tables at startup and, for every
table, builds a router with five endpoints: a paginated, filterable listing
(`GET /{table}/`), a fetch by identifier (`GET /{table}/{id}`), create
(`POST`), update (`PUT`) and delete (`DELETE`). All of that logic lives in
`create_dynamic_crud_router` in `autocrud.py`. This project models it:

* the request/response schemas derived from the column metadata (create
  schema: a field per column, required iff the column is not nullable;
  response schema: every field optional; the paginated envelope);
* the choice of identifier columns (primary key, or all columns) and of the
  single column get-one compares (first primary-key column, or first column);
* the listing's page arithmetic, equality filters and `OFFSET`/`LIMIT` slice;
* the row-matching and outcome rules of get, create, update and delete, over
  an in-memory table: a sequence of rows, each a map from column name to value.

Modules follow the pieces of the router:

| file | module | contents |
|---|---|---|
| `wrappers.dfy` | `Wrappers` | `Option`, `Result` |
| `seqs.dfy` | `Seqs` | generic filtering and first-match search |
| `tables.dfy` | `Tables` | values, columns, tables, rows, errors, identifier columns |
| `schemas.dfy` | `Schemas` | create/response schemas, body validation, the envelope |
| `pagination.dfy` | `Pagination` | paging bounds, page count, offset, slicing |
| `filters.dfy` | `Filters` | filter conditions and row selection |
| `handlers.dfy` | `Handlers` | `GetAll`, `GetSingle`, `CreateItem`, `UpdateItem`, `DeleteItem` |
| `handler_lemmas.dfy` | `HandlerLemmas` | properties across handler calls |
| `scenarios.dfy` | `Scenarios` | concrete requests on an `items` table and a composite-key table |

Conventions of the model:

* A row is `map<string, Value>`; a column a row lacks reads as `Null`. SQL's
  `col = :id` is `Cell(row, col) == Int(id)`; a NULL cell never equals a
  non-null identifier or filter value, as in SQL.
* The in-memory sequence order stands for the order the database returns
  rows in; `fetchone()` is the first matching row in that order.
* Handler errors are values of `Tables.Error`: `NotFound` (404),
  `InvalidQuery` and `InvalidBody` (request validation), and `NoColumns` (the
  `IndexError` get-one raises on a table with neither a primary key nor columns).
* Mutating handlers return the rows after the commit together with the row
  the endpoint answers with.

Two consequences of binding both the create and the update body to the
create model, shown on a table `items(id int primary key, name text not
null, qty int nullable)`:

* The update handler's own comment (autocrud.py:117) calls it a partial
  update, and it does write only the fields a body sets (`exclude_unset`).
  But the body is validated against the create model first, so every
  non-nullable column must still be present and non-null; only nullable
  fields can be left out. `Scenarios.ItemsUpdateNeedsName`: the body
  `{"id": 1, "qty": 5}` is rejected because it omits `name`.
* The create model requires every non-nullable column, primary key
  included, so a create body cannot leave the key to the database.
  `Scenarios.ItemsCreateNeedsId`: the body `{"name": "x", "qty": null}` is
  rejected because it omits `id`.

## Model

| member | source | states |
|---|---|---|
| `Tables.IdentifierColumns` | autocrud.py:35-36 | identifier columns are the primary-key columns when a primary key exists, otherwise all columns; of a valid table they are all columns, and empty only when the table has no columns |
| `Tables.KeyColumn` | autocrud.py:83-94 | get-one compares exactly one column, the first identifier column (first primary-key column, else first column); there is none exactly when there are no identifier columns |
| `Tables.IdMatchImpliesKeyMatch` | autocrud.py:84-121 | a row matched by update/delete (all identifier columns equal the id) is matched by get-one; the converse holds when there is a single identifier column |
| `Schemas.FieldMap` | autocrud.py:15-18 | the dict comprehension has a key for exactly the column names, and each name maps to the field of the last column with that name |
| `Schemas.CreateSchema` | autocrud.py:15-19 | the create schema's fields are the columns; a field has the column's type, is required iff the column is non-nullable, and defaults to None when nullable |
| `Schemas.ResponseSchema` | autocrud.py:22-23 | the response schema's field set equals the column set (and the create schema's), every field optional with default None |
| `Schemas.SchemasHaveOneFieldPerColumn` | autocrud.py:15-23 | with distinct column names both schemas have exactly one field per column |
| `Schemas.ValidateBody` | autocrud.py:112-118 | a body validates iff every required field is present and non-null; the explicitly set fields are the body's entries that name schema fields, with the body's values |
| `Schemas.Dump` | autocrud.py:103-104 | `item.dict()` has every schema field: the set value when given, the field's default otherwise |
| `Schemas.ValidatedBodyDumps` | autocrud.py:104-118 | a validated body sets every required field, and the set fields agree with the full dump |
| `Schemas.CreateSchemaAccepts` | autocrud.py:15-19 | for a valid table a body passes the create schema iff it gives every non-nullable column a non-null value |
| `Pagination.PageCount` | autocrud.py:64 | `pages` is the ceiling of total/size: `pages*size >= total`, `(pages-1)*size < total` when total > 0, and 0 when total is 0 |
| `Pagination.Offset` | autocrud.py:65 | the offset is non-negative, a multiple of size, and the quotient is `page - 1` |
| `Pagination.MultipleDivides` | autocrud.py:65 | a multiple of the page size divides by it exactly |
| `Pagination.PageSlice` | autocrud.py:68 | `OFFSET/LIMIT` yields the elements at consecutive positions from the offset: `limit` of them when enough remain, the `|s| - offset` remaining ones on a partial last page, none past the end |
| `Pagination.AllPagesPrefix` | autocrud.py:60-68 | pages 1..n concatenated are the first `n*size` rows |
| `Pagination.PagesCoverAll` | autocrud.py:60-70 | pages 1..pages concatenated are exactly the rows |
| `Pagination.PageBeyondLastIsEmpty` | autocrud.py:64-68 | a page past the page count is empty |
| `Filters.Conditions` | autocrud.py:51-55 | keeps exactly the filter entries whose value is not None and whose name is a column, with their values |
| `Filters.Select` | autocrud.py:51-57 | a row is selected iff it is in the table and agrees with every kept filter entry (conjunction); each selected row appears as often as in the table |
| `Filters.SelectAppend` | autocrud.py:51-57 | selection keeps the table's order: selecting from a concatenation concatenates the selections |
| `Filters.NoConditionsSelectsAll` | autocrud.py:51-57 | when no filter entry survives, the query is unrestricted and every row is selected, in order |
| `Handlers.GetAll` | autocrud.py:40-78 | listing fails iff page < 1 or size outside 1..100; otherwise it echoes page and size, `total` counts the selected rows, `pages` is the ceiling of total/size, and the items are the selected rows from position `(page-1)*size` on, in order, `size` of them or as many as remain |
| `Handlers.GetSingle` | autocrud.py:81-99 | get-one returns the first row whose key column equals the id, fails with not-found iff no row does, and raises when the table has no columns |
| `Handlers.CreateItem` | autocrud.py:102-108 | create succeeds iff the body has every non-nullable column non-null; it appends one row holding every column, the body's values, and None for unset columns |
| `Handlers.UpdateRows` | autocrud.py:120-129 | rows not matching every identifier column are unchanged; matching rows take the set fields' values and keep every other column |
| `Handlers.UpdateItem` | autocrud.py:111-135 | update fails on a body missing a required field, fails with not-found iff no row matches all identifier columns, writes only the set fields of matched rows, leaves other rows untouched, and returns the first updated row |
| `Handlers.Survivors` | autocrud.py:141-145 | the rows a delete leaves are exactly the rows not matching every identifier column, each as often as in the table; all rows survive iff none matches |
| `Handlers.SurvivorsAppend` | autocrud.py:141-145 | a delete keeps the surviving rows in their order: survivors of a concatenation are the concatenated survivors |
| `Handlers.DeleteItem` | autocrud.py:138-148 | delete fails with not-found iff no row matches all identifier columns; otherwise the remaining rows are the survivors, with every unmatched row kept as often as in the table and every matching row removed |
| `HandlerLemmas.ListedItemsArePages` | autocrud.py:60-70 | requesting pages 1..n in turn returns, page by page, the `OFFSET/LIMIT` slices of the selected rows for those page numbers |
| `HandlerLemmas.ListingCoversSelection` | autocrud.py:60-70 | listing pages 1..pages returns the selected rows in order, so the page lengths sum to `total` |
| `HandlerLemmas.UnfilteredListingCoversTable` | autocrud.py:48-70 | without filters, `total` is the table size and the pages concatenate to the whole table |
| `HandlerLemmas.DefaultListingIsFirstPage` | autocrud.py:43-44 | a listing with the default page 1 and size 10 succeeds and returns the first ten selected rows, or all of them if fewer |
| `HandlerLemmas.PagePastEndIsEmpty` | autocrud.py:63-70 | a page past the last one is an empty list, not an error |
| `HandlerLemmas.IdentifiedRowIsFetchable` | autocrud.py:84-148 | whenever delete finds a row to remove, get-one finds a row for the same id |
| `HandlerLemmas.GetSingleFindsFirst` | autocrud.py:84-99 | get-one returns the row at the first position whose key column equals the id |
| `HandlerLemmas.CreateThenGet` | autocrud.py:102-108 | after creating a row whose key column holds a fresh id, get-one for that id returns the created row |
| `HandlerLemmas.UpdateThenGet` | autocrud.py:111-135 | with one identifier column, after an update that keeps the key, get-one returns the updated row |
| `HandlerLemmas.DeleteTwiceNotFound` | autocrud.py:141-148 | after a successful delete no row matches the id, so deleting again is not found |
| `HandlerLemmas.DeleteThenGet` | autocrud.py:138-148 | with one identifier column, get-one after a successful delete is not found |
| `Scenarios.CompositeKeyAsymmetry` | autocrud.py:90-141 | on a composite key, get-one finds row (a=1, b=2) for id 1 while update and delete of id 1 are not found |
| `Scenarios.ItemsCreateNeedsId` | autocrud.py:15-19 | the create schema requires the non-nullable primary key, so a body without it is rejected |
| `Scenarios.ItemsUpdateNeedsName` | autocrud.py:111-118 | update validates against the create schema, so a body that sets the key and a nullable column but omits the non-nullable `name` is rejected |

## Left out

- `database.py`: the connection string, engine, session lifecycle (`get_db`) and table reflection are I/O and driver configuration; the reflected table is a parameter (`Tables.Table`), assumed to satisfy `Tables.ValidTable` where a property needs it.
- `main.py`: startup wiring, CORS middleware, the authentication dependency and `/health` are framework plumbing with no logic of their own.
- The route prefix and tags (`APIRouter(prefix=...)`), HTTP status codes and the serialisation of responses belong to FastAPI; not-found and validation failures are `Tables.Error` values.
- SQL execution, async/await, transactions and `commit` are left to SQLAlchemy and the database; each handler is a pure function of the rows before the request.
- Database-assigned values returned by `insert ... returning` are not modelled: create appends the dumped body as the new row. Duplicate-key and other constraint violations are not modelled.
- Row order: without `ORDER BY` the database's order is not defined; the model fixes it as the sequence order, the same for every query.
- Pydantic type coercion through `col.type.python_type` is not modelled: column types are opaque tags, values are compared by equality, and validation checks only that required fields are present and non-null (whether an explicit null passes for a nullable field depends on the Pydantic version). Body entries that name no field are dropped.
- Whether FastAPI delivers `**filters` as query parameters is not modelled; the filters are a parameter. `hasattr(table.c, name)` is modelled as "names a column": attribute names of SQLAlchemy's column collection itself are not.
- Handlers.UpdateItem: an update whose body sets no field at all (every column nullable and none given) is modelled as leaving the matched rows unchanged; what SQLAlchemy does with `.values()` of nothing is not modelled.
- Pagination.PageCount and Pagination.Offset: they require `size >= 1` (and `page >= 1`), which the listing's parameter validation guarantees before the arithmetic runs; the division by zero a size of 0 would cause is not modelled.
- HandlerLemmas.IdentifiedRowIsFetchable: requires a key column; on a table with no columns every row matches update/delete's empty conjunction while get-one raises.
- Concurrency between requests is not modelled; each handler is one atomic step.
