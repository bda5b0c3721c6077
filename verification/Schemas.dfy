/** The schema statements of `BaseDatabase` as SQLite carries them out: tables with columns and rows,
    and one namespace of indexes shared by all tables. */
module Schemas {
  import opened Wrappers

  datatype Value = Null | Number(n: int) | Text(s: string)

  type Record = map<string, Value>

  /** `locked` are the columns of PRIMARY KEY and UNIQUE constraints, which cannot be dropped. */
  datatype TableDef = TableDef(columns: seq<string>, locked: set<string>, rows: seq<Record>)

  datatype Index = Index(table: string, column: string)

  datatype Db = Db(tables: map<string, TableDef>, indexes: map<string, Index>) {

    /** Rows have exactly the columns of their table, constraints and indexes name columns that exist. */
    ghost predicate Valid() {
      && (forall t :: t in tables ==> ValidTable(tables[t]))
      && (forall i :: i in indexes ==> indexes[i].table in tables && indexes[i].column in tables[indexes[i].table].columns)
    }
  }

  ghost predicate ValidTable(t: TableDef) {
    && Distinct(t.columns)
    && (forall c :: c in t.locked ==> c in t.columns)
    && (forall r :: r in t.rows ==> forall c :: c in r <==> c in t.columns)
  }

  datatype SqlError = SqlError

  /** The name `add_index` builds; it does not mention the table. */
  function IndexName(column: string): string { "idx_" + column }

  // ----- statements

  /** `DROP TABLE IF EXISTS`: the indexes of the table go with it. */
  function DropTable(db: Db, t: string): Db {
    Db(db.tables - {t}, map i | i in db.indexes && db.indexes[i].table != t :: db.indexes[i])
  }

  /** `CREATE TABLE IF NOT EXISTS`: does nothing if the table is there, fails if an index has its name. */
  function CreateTable(db: Db, t: string, columns: seq<string>, locked: set<string>): Result<Db, SqlError> {
    if t in db.tables then Ok(db)
    else if t in db.indexes then Err(SqlError)
    else Ok(db.(tables := db.tables[t := TableDef(columns, locked, [])]))
  }

  /** `CREATE INDEX IF NOT EXISTS idx_<column>`: does nothing if any table owns an index of that name. */
  function AddIndex(db: Db, t: string, column: string): Result<Db, SqlError> {
    if t !in db.tables || IndexName(column) in db.tables then Err(SqlError)
    else if IndexName(column) in db.indexes then Ok(db)
    else if column !in db.tables[t].columns then Err(SqlError)
    else Ok(db.(indexes := db.indexes[IndexName(column) := Index(t, column)]))
  }

  /** SQLite refuses to drop a constrained or indexed column, or the last one. */
  predicate Droppable(db: Db, t: string, column: string)
    requires t in db.tables
  {
    && column in db.tables[t].columns && |db.tables[t].columns| > 1 && column !in db.tables[t].locked
    && forall i :: i in db.indexes ==> db.indexes[i] != Index(t, column)
  }

  function Without(columns: seq<string>, column: string): (r: seq<string>)
    ensures forall c :: c in r <==> c in columns && c != column
  {
    if columns == [] then []
    else if columns[0] == column then Without(columns[1..], column)
    else [columns[0]] + Without(columns[1..], column)
  }

  /** `ALTER TABLE … DROP COLUMN`. */
  function DropColumn(db: Db, t: string, column: string): Result<Db, SqlError> {
    if t !in db.tables || !Droppable(db, t, column) then Err(SqlError)
    else
      var def := db.tables[t];
      var rows := seq(|def.rows|, i requires 0 <= i < |def.rows| => def.rows[i] - {column});
      Ok(db.(tables := db.tables[t := def.(columns := Without(def.columns, column), rows := rows)]))
  }

  /** `ALTER TABLE … ADD COLUMN … DEFAULT`: existing rows read the default. */
  function AddColumn(db: Db, t: string, column: string, default_: Value): Result<Db, SqlError> {
    if t !in db.tables || column in db.tables[t].columns then Err(SqlError)
    else
      var def := db.tables[t];
      var rows := seq(|def.rows|, i requires 0 <= i < |def.rows| => def.rows[i][column := default_]);
      Ok(db.(tables := db.tables[t := def.(columns := def.columns + [column], rows := rows)]))
  }

  // ----- what every statement keeps

  lemma DropTableKeepsValid(db: Db, t: string)
    requires db.Valid()
    ensures DropTable(db, t).Valid()
  {
  }

  lemma CreateTableKeepsValid(db: Db, t: string, columns: seq<string>, locked: set<string>)
    requires db.Valid() && ValidTable(TableDef(columns, locked, []))
    ensures CreateTable(db, t, columns, locked).Ok? ==> CreateTable(db, t, columns, locked).value.Valid()
  {
  }

  lemma AddIndexKeepsValid(db: Db, t: string, column: string)
    requires db.Valid()
    ensures AddIndex(db, t, column).Ok? ==> AddIndex(db, t, column).value.Valid()
  {
  }

  ghost predicate Distinct(columns: seq<string>) {
    forall i, j :: 0 <= i < j < |columns| ==> columns[i] != columns[j]
  }

  lemma {:induction false} WithoutStaysDistinct(columns: seq<string>, column: string)
    requires Distinct(columns)
    ensures Distinct(Without(columns, column))
  {
    if columns != [] {
      var first, rest := columns[0], columns[1..];
      assert forall i :: 0 <= i < |rest| ==> rest[i] == columns[i + 1];
      WithoutStaysDistinct(rest, column);
      if first != column {
        PrependStaysDistinct(first, Without(rest, column));
      }
    }
  }

  lemma PrependStaysDistinct(first: string, rest: seq<string>)
    requires Distinct(rest) && first !in rest
    ensures Distinct([first] + rest)
  {
    var all := [first] + rest;
    forall i, j | 0 <= i < j < |all| ensures all[i] != all[j] {
      assert all[j] == rest[j - 1] && all[j] in rest;
      if i > 0 {
        assert all[i] == rest[i - 1];
      }
    }
  }

  /** Dropping a column takes its value out of every row and keeps all others. */
  lemma DropColumnKeepsValid(db: Db, t: string, column: string)
    requires db.Valid()
    ensures DropColumn(db, t, column).Ok? ==> DropColumn(db, t, column).value.Valid()
  {
    if DropColumn(db, t, column).Ok? {
      var before, db' := db.tables[t], DropColumn(db, t, column).value;
      WithoutStaysDistinct(before.columns, column);
      DroppedRowsFit(before, column);
      assert ValidTable(db'.tables[t]);
    }
  }

  lemma DroppedRowsFit(before: TableDef, column: string)
    requires ValidTable(before)
    ensures forall i :: 0 <= i < |before.rows| ==> forall c :: c in before.rows[i] - {column} <==> c in Without(before.columns, column)
  {
    forall i, c | 0 <= i < |before.rows| ensures c in before.rows[i] - {column} <==> c in Without(before.columns, column) {
      assert before.rows[i] in before.rows;
    }
  }

  /** Adding a column gives every row a value for it. */
  lemma AddColumnKeepsValid(db: Db, t: string, column: string, default_: Value)
    requires db.Valid()
    ensures AddColumn(db, t, column, default_).Ok? ==> AddColumn(db, t, column, default_).value.Valid()
  {
    if AddColumn(db, t, column, default_).Ok? {
      var before, db' := db.tables[t], AddColumn(db, t, column, default_).value;
      forall i | 0 <= i < |before.rows| ensures forall c :: c in before.rows[i][column := default_] <==> c in before.columns + [column] {
        assert before.rows[i] in before.rows;
      }
      assert ValidTable(db'.tables[t]);
    }
  }
}
