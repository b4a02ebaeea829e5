/** The models the router derives from a table's columns: the create schema
    (request body of POST and PUT), the response schema, and the paginated
    envelope returned by the listing endpoint; plus how a request body is
    checked against a schema and turned into field values. */
module Schemas {
  import opened Wrappers
  import opened Tables

  /** A field's default: `Required` is Pydantic's `...`; otherwise the value
      an unset field takes. */
  datatype Default = Required | DefaultsTo(value: Value)

  datatype Field = Field(typ: TypeTag, default: Default)

  /** A model's fields by name. */
  type Schema = map<string, Field>

  /** The paginated response: one page of rows plus its position in the whole. */
  datatype Envelope = Envelope(items: seq<Row>, total: nat, page: int, size: int, pages: nat)

  /** A dict comprehension over the columns: one field per column name, built
      by `mk`; when two columns share a name the later one wins. */
  function FieldMap(cols: seq<Column>, mk: Column -> Field): (s: Schema)
    ensures forall n :: n in s <==> n in ColumnNames(cols)
    ensures forall n :: n in s ==> exists i :: 0 <= i < |cols| && cols[i].name == n && s[n] == mk(cols[i])
    ensures forall i :: 0 <= i < |cols| && LastWithName(cols, i) ==> s[cols[i].name] == mk(cols[i])
  {
    var s := map n | n in ColumnNames(cols) :: mk(cols[LastIndexBelow(cols, n, |cols|)]);
    assert forall i :: 0 <= i < |cols| && LastWithName(cols, i) ==> LastIndexBelow(cols, cols[i].name, |cols|) == i;
    s
  }

  /** The last position below `k` holding a column named `n`, or -1 if none does. */
  function LastIndexBelow(cols: seq<Column>, n: string, k: nat): (r: int)
    requires k <= |cols|
    ensures -1 <= r < k
    ensures r >= 0 ==> cols[r].name == n && forall j :: r < j < k ==> cols[j].name != n
    ensures r < 0 ==> forall j :: 0 <= j < k ==> cols[j].name != n
  {
    if k == 0 then -1
    else if cols[k - 1].name == n then k - 1
    else LastIndexBelow(cols, n, k - 1)
  }

  /** No column after position `i` carries the name of column `i`. */
  predicate LastWithName(cols: seq<Column>, i: int)
    requires 0 <= i < |cols|
  {
    forall j :: i < j < |cols| ==> cols[j].name != cols[i].name
  }

  /** The create field of a column: required iff the column is not nullable,
      otherwise defaulting to None. */
  function CreateField(c: Column): Field {
    Field(c.typ, if c.nullable then DefaultsTo(Null) else Required)
  }

  /** The response field of a column: always optional, defaulting to None. */
  function ResponseField(c: Column): Field {
    Field(c.typ, DefaultsTo(Null))
  }

  /** The create schema of a table with distinct column names: one field per
      column, of the column's type, required exactly when the column is not
      nullable, and defaulting to None when it is nullable. */
  function CreateSchema(t: Table): (s: Schema)
    ensures forall n :: n in s <==> n in ColumnNames(t.columns)
    ensures ValidTable(t) ==> forall c :: c in t.columns ==>
              && s[c.name].typ == c.typ
              && (s[c.name].default == Required <==> !c.nullable)
              && (c.nullable ==> s[c.name].default == DefaultsTo(Null))
  {
    FieldMap(t.columns, CreateField)
  }

  /** The response schema: its field set is the column set, and every field is
      optional with default None. */
  function ResponseSchema(t: Table): (s: Schema)
    ensures forall n :: n in s <==> n in ColumnNames(t.columns)
    ensures s.Keys == CreateSchema(t).Keys
    ensures forall n :: n in s ==> s[n].default == DefaultsTo(Null)
    ensures ValidTable(t) ==> forall c :: c in t.columns ==> s[c.name].typ == c.typ
  {
    FieldMap(t.columns, ResponseField)
  }

  /** With distinct column names the comprehension yields exactly one field per column. */
  lemma FieldMapSize(cols: seq<Column>, mk: Column -> Field)
    requires forall i, j :: 0 <= i < j < |cols| ==> cols[i].name != cols[j].name
    ensures |FieldMap(cols, mk)| == |cols|
  {
    var names := ColumnNames(cols);
    DistinctElements(names);
    assert FieldMap(cols, mk).Keys == set n | n in names;
  }

  /** A sequence without repetitions has as many distinct elements as positions. */
  lemma {:induction false} DistinctElements<T>(s: seq<T>)
    requires forall i, j :: 0 <= i < j < |s| ==> s[i] != s[j]
    ensures |set x | x in s| == |s|
  {
    if |s| > 0 {
      var init := s[..|s| - 1];
      DistinctElements(init);
      assert (set x | x in s) == (set x | x in init) + {s[|s| - 1]};
      assert s[|s| - 1] !in init;
    }
  }

  /** Both schemas of a valid table hold exactly one field per column, and
      share the same field names (the column names). */
  lemma SchemasHaveOneFieldPerColumn(t: Table)
    requires ValidTable(t)
    ensures |CreateSchema(t)| == |t.columns|
    ensures |ResponseSchema(t)| == |t.columns|
  {
    FieldMapSize(t.columns, CreateField);
    FieldMapSize(t.columns, ResponseField);
  }

  /** Pydantic's check of a request body against a schema: it fails when a
      required field is absent or null; otherwise it yields the fields the body
      explicitly sets (`exclude_unset=True`), dropping names the schema lacks. */
  function ValidateBody(s: Schema, body: map<string, Value>): (r: Result<map<string, Value>, Error>)
    ensures r.Success? <==>
              forall n :: n in s && s[n].default == Required ==> n in body && body[n] != Null
    ensures r.Failure? ==> r.error == InvalidBody
    ensures r.Success? ==> forall n :: n in r.value <==> n in s && n in body
    ensures r.Success? ==> forall n :: n in r.value ==> r.value[n] == body[n]
  {
    if forall n :: n in s && s[n].default == Required ==> n in body && body[n] != Null then
      Success(map n | n in s && n in body :: body[n])
    else
      Failure(InvalidBody)
  }

  /** Every required field of `s` is among the explicitly set fields. */
  predicate SetsRequired(s: Schema, set_: map<string, Value>) {
    forall n :: n in s && s[n].default == Required ==> n in set_
  }

  /** `item.dict()`: every field of the schema, taking the set value when there
      is one and the field's default otherwise. */
  function Dump(s: Schema, set_: map<string, Value>): (d: map<string, Value>)
    requires SetsRequired(s, set_)
    ensures d.Keys == s.Keys
    ensures forall n :: n in d && n in set_ ==> d[n] == set_[n]
    ensures forall n :: n in d && n !in set_ ==> s[n].default.DefaultsTo? && d[n] == s[n].default.value
  {
    map n | n in s :: if n in set_ then set_[n] else s[n].default.value
  }

  /** A body that validates sets every required field, and the fields it sets
      agree with the full dump of the model. */
  lemma ValidatedBodyDumps(s: Schema, body: map<string, Value>)
    requires ValidateBody(s, body).Success?
    ensures SetsRequired(s, ValidateBody(s, body).value)
    ensures var d := Dump(s, ValidateBody(s, body).value);
            forall n :: n in s && n in body ==> d[n] == body[n]
  {
  }

  /** The body carries a non-null value for every non-nullable column. */
  predicate HasRequiredFields(t: Table, body: map<string, Value>) {
    forall c :: c in t.columns && !c.nullable ==> c.name in body && body[c.name] != Null
  }

  /** A body passes the create schema of a valid table exactly when it gives
      every non-nullable column a non-null value. */
  lemma CreateSchemaAccepts(t: Table, body: map<string, Value>)
    ensures ValidTable(t) ==> (ValidateBody(CreateSchema(t), body).Success? <==> HasRequiredFields(t, body))
  {
    var s := CreateSchema(t);
    if ValidTable(t) && HasRequiredFields(t, body) {
      forall n | n in s && s[n].default == Required
        ensures n in body && body[n] != Null
      {
        var i :| 0 <= i < |t.columns| && ColumnNames(t.columns)[i] == n;
        assert t.columns[i] in t.columns;
      }
    }
  }
}
