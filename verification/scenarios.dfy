/** Concrete requests against two small tables: an `items` table with a
    single-column primary key, and a table keyed by a pair of columns. */
module Scenarios {
  import opened Wrappers
  import opened Tables
  import opened Schemas
  import opened Handlers

  const IntType := TypeTag("int")
  const TextType := TypeTag("str")

  /** `items(id int primary key, name text not null, qty int nullable)`. */
  const Items := Table("items", [Column("id", IntType, false), Column("name", TextType, false),
                                 Column("qty", IntType, true)], ["id"])

  /** A table keyed by the pair (a, b). */
  const Pairs := Table("pairs", [Column("a", IntType, false), Column("b", IntType, false)], ["a", "b"])

  /** On a composite key, get-single compares only the first key column while
      update and delete require every key column to equal the identifier: the
      row (a=1, b=2) is fetched by id 1 but can be neither updated nor deleted by it. */
  lemma CompositeKeyAsymmetry()
    ensures var rows := [map["a" := Int(1), "b" := Int(2)]];
            && GetSingle(Pairs, rows, 1) == Success(rows[0])
            && UpdateItem(Pairs, rows, 1, map["a" := Int(1), "b" := Int(3)]) == Failure(NotFound)
            && DeleteItem(Pairs, rows, 1) == Failure(NotFound)
  {
    var rows := [map["a" := Int(1), "b" := Int(2)]];
    assert KeyColumn(Pairs) == Some("a");
    assert MatchesKey("a", 1, rows[0]);
    GetSingleFinds(Pairs, rows, 1);
    assert IdentifierColumns(Pairs) == ["a", "b"];
    assert "b" in IdentifierColumns(Pairs);
    assert Cell(rows[0], "b") == Int(2);
    assert !MatchesId(Pairs, 1, rows[0]);
    PairsValid();
    var body := map["a" := Int(1), "b" := Int(3)];
    assert HasRequiredFields(Pairs, body) by {
      assert forall c :: c in Pairs.columns ==> c.name in body && body[c.name] != Null;
    }
  }

  lemma PairsValid()
    ensures ValidTable(Pairs)
  {
    assert ColumnNames(Pairs.columns) == ["a", "b"];
  }

  lemma ItemsValid()
    ensures ValidTable(Items)
  {
    assert ColumnNames(Items.columns) == ["id", "name", "qty"];
  }

  lemma GetSingleFinds(t: Table, rows: seq<Row>, id: int)
    requires |rows| == 1 && KeyColumn(t).Some? && MatchesKey(KeyColumn(t).value, id, rows[0])
    ensures GetSingle(t, rows, id) == Success(rows[0])
  {
  }

  /** The create schema of `items` requires `id` and `name` (neither is
      nullable), so a create body without `id` is rejected. */
  lemma ItemsCreateNeedsId()
    ensures CreateItem(Items, [], map["name" := Text("x"), "qty" := Null]) == Failure(InvalidBody)
  {
    ItemsValid();
    assert Items.columns[0] in Items.columns;
  }

  /** The update handler validates its body against the create schema, so an
      update that sets `id` and `qty` is rejected for omitting `name`, although
      the handler otherwise writes only the fields a body sets. */
  lemma ItemsUpdateNeedsName()
    ensures UpdateItem(Items, [map["id" := Int(1), "name" := Text("x"), "qty" := Null]], 1,
                       map["id" := Int(1), "qty" := Int(5)]) == Failure(InvalidBody)
  {
    ItemsValid();
    assert Items.columns[1] in Items.columns;
  }
}
