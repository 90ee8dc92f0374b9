/**
 * The relational store behind the ORM, reduced to what the serializer relies
 * on: one sequence of rows per table, insertion with a store-assigned
 * identity, saving an instance back over its row, and the `filter(...).first()`
 * lookup used by the uniqueness check.
 */
module Store {
  import opened Values

  /** Table name to its rows in insertion order. */
  type Tables = map<string, seq<Row>>

  function RowsOf(db: Tables, table: string): seq<Row>
  {
    if table in db then db[table] else []
  }

  /** The identity the store gives the next row of `table` (rows are never deleted). */
  function NextId(db: Tables, table: string): int
  {
    |RowsOf(db, table)| + 1
  }

  /** `Model.create(**kwargs)`: the instance built from `kwargs`, with its identity assigned. */
  function NewRow(db: Tables, table: string, pkName: string, kwargs: Kwargs): (r: Row)
    ensures r.Keys == kwargs.Keys + {pkName}
    ensures r[pkName] == VInt(NextId(db, table))
    ensures forall k :: k in kwargs && k != pkName ==> r[k] == kwargs[k]
  {
    kwargs[pkName := VInt(NextId(db, table))]
  }

  function Inserted(db: Tables, table: string, row: Row): (db': Tables)
    ensures RowsOf(db', table) == RowsOf(db, table) + [row]
    ensures forall t :: t != table ==> RowsOf(db', t) == RowsOf(db, t)
  {
    db[table := RowsOf(db, table) + [row]]
  }

  /** `instance.save()`: every row of `table` with the instance's identity now holds the instance. */
  function Saved(db: Tables, table: string, pkName: string, row: Row): (db': Tables)
    ensures |RowsOf(db', table)| == |RowsOf(db, table)|
    ensures forall i :: 0 <= i < |RowsOf(db, table)| ==>
      RowsOf(db', table)[i]
        == if Attr(RowsOf(db, table)[i], pkName) == Attr(row, pkName) then row else RowsOf(db, table)[i]
    ensures forall t :: t != table ==> RowsOf(db', t) == RowsOf(db, t)
  {
    var rows := RowsOf(db, table);
    db[table := seq(|rows|, i requires 0 <= i < |rows| =>
                      if Attr(rows[i], pkName) == Attr(row, pkName) then row else rows[i])]
  }

  /** `filter(**{name: v}).first()` finds a row. */
  predicate Taken(rows: seq<Row>, name: string, v: Value)
  {
    exists i :: 0 <= i < |rows| && Attr(rows[i], name) == v
  }

  /** No two rows hold the same value under `name`: what a `unique=True` column promises. */
  predicate UniqueIn(rows: seq<Row>, name: string)
  {
    forall i, j :: 0 <= i < j < |rows| ==> Attr(rows[i], name) != Attr(rows[j], name)
  }

  /** The database the ORM connection talks to. */
  class Database {
    var tables: Tables

    constructor ()
      ensures tables == map[]
    {
      tables := map[];
    }

    function Rows(table: string): seq<Row>
      reads this
    {
      RowsOf(tables, table)
    }

    method Create(table: string, pkName: string, kwargs: Kwargs) returns (row: Row)
      modifies this
      ensures row == NewRow(old(tables), table, pkName, kwargs)
      ensures tables == Inserted(old(tables), table, row)
    {
      row := NewRow(tables, table, pkName, kwargs);
      tables := Inserted(tables, table, row);
    }

    method Save(table: string, pkName: string, row: Row)
      modifies this
      ensures tables == Saved(old(tables), table, pkName, row)
    {
      tables := Saved(tables, table, pkName, row);
    }
  }
}
