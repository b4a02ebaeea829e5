/** The reflected table a router is built for: its ordered columns, their
    nullability and type, its primary key, and the rows it holds. A row is a
    mapping from column name to scalar value, as `dict(row._mapping)` gives. */
module Tables {
  import opened Wrappers

  /** A scalar cell value; `Null` is SQL NULL and Python's `None`. */
  datatype Value = Null | Int(n: int) | Text(s: string) | Bool(b: bool)

  /** The column's Python type, kept opaque: type coercion is not modelled. */
  datatype TypeTag = TypeTag(name: string)

  datatype Column = Column(name: string, typ: TypeTag, nullable: bool)

  /** A reflected table: name, columns in declaration order, and the names of
      its primary-key columns in key order (empty when it declares none). */
  datatype Table = Table(name: string, columns: seq<Column>, primaryKey: seq<string>)

  type Row = map<string, Value>

  /** The errors a handler can end in. */
  datatype Error =
    | NotFound       // HTTP 404 "Item not found"
    | InvalidQuery   // page or size outside the bounds the query declares
    | InvalidBody    // the request body does not satisfy the create schema
    | NoColumns      // indexing the column list of a table that has none

  /** The value of column `name` in `row`; a column the row lacks reads as NULL. */
  function Cell(row: Row, name: string): Value {
    if name in row then row[name] else Null
  }

  /** The names of `cols`, in order. */
  function ColumnNames(cols: seq<Column>): (names: seq<string>)
    ensures |names| == |cols|
    ensures forall i :: 0 <= i < |cols| ==> names[i] == cols[i].name
  {
    seq(|cols|, i requires 0 <= i < |cols| => cols[i].name)
  }

  /** What reflection guarantees of a table: column names are distinct and
      every primary-key column is one of them, listed once. */
  predicate ValidTable(t: Table) {
    && (forall i, j :: 0 <= i < j < |t.columns| ==> t.columns[i].name != t.columns[j].name)
    && (forall i, j :: 0 <= i < j < |t.primaryKey| ==> t.primaryKey[i] != t.primaryKey[j])
    && (forall k :: k in t.primaryKey ==> k in ColumnNames(t.columns))
  }

  /** The columns update and delete compare against the path identifier:
      the primary-key columns, or every column when there is no primary key. */
  function IdentifierColumns(t: Table): (ids: seq<string>)
    ensures ValidTable(t) ==> forall c :: c in ids ==> c in ColumnNames(t.columns)
    ensures ValidTable(t) ==> (|ids| == 0 <==> |t.columns| == 0)
    ensures |t.primaryKey| > 0 ==> ids == t.primaryKey
    ensures |t.primaryKey| == 0 ==> ids == ColumnNames(t.columns)
  {
    if |t.primaryKey| > 0 then
      assert t.primaryKey[0] in t.primaryKey;
      t.primaryKey
    else ColumnNames(t.columns)
  }

  /** The one column get-single compares against the path identifier: the
      first primary-key column, or the first column when there is no primary
      key; `None` when the table has neither. */
  function KeyColumn(t: Table): (k: Option<string>)
    ensures k.Some? <==> |IdentifierColumns(t)| > 0
    ensures k.Some? ==> k.value == IdentifierColumns(t)[0]
  {
    if |t.primaryKey| > 0 then Some(t.primaryKey[0])
    else if |t.columns| > 0 then Some(t.columns[0].name)
    else None
  }

  /** The where-clause of update and delete: every identifier column equals `id`. */
  predicate MatchesId(t: Table, id: int, row: Row) {
    forall c :: c in IdentifierColumns(t) ==> Cell(row, c) == Int(id)
  }

  function IdMatcher(t: Table, id: int): Row -> bool {
    row => MatchesId(t, id, row)
  }

  /** The where-clause of get-single: column `key` equals `id`. */
  predicate MatchesKey(key: string, id: int, row: Row) {
    Cell(row, key) == Int(id)
  }

  function KeyMatcher(key: string, id: int): Row -> bool {
    row => MatchesKey(key, id, row)
  }

  /** A row that update or delete would touch is one get-single would find,
      and the converse holds exactly when there is a single identifier column. */
  lemma IdMatchImpliesKeyMatch(t: Table, id: int, row: Row)
    requires KeyColumn(t).Some?
    ensures MatchesId(t, id, row) ==> MatchesKey(KeyColumn(t).value, id, row)
    ensures |IdentifierColumns(t)| == 1 ==>
              (MatchesId(t, id, row) <==> MatchesKey(KeyColumn(t).value, id, row))
  {
    var ids := IdentifierColumns(t);
    assert ids[0] in ids;
    if |ids| == 1 {
      assert forall c :: c in ids ==> c == ids[0];
    }
  }
}
