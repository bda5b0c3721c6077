/** `BaseDatabase`: the schema statements as operations of one table over the shared connection. */
module BaseDatabases {
  import opened Wrappers
  import opened Schemas

  class Connection {
    var db: Db

    constructor (db: Db)
      ensures this.db == db
    {
      this.db := db;
    }
  }

  /** One table as the program holds it: the shared connection and a table name. */
  class BaseDatabase {
    const conn: Connection
    const tableName: string

    constructor (conn: Connection, tableName: string)
      ensures this.conn == conn && this.tableName == tableName
    {
      this.conn, this.tableName := conn, tableName;
    }

    method Execute(r: Result<Db, SqlError>) returns (ok: bool)
      modifies conn
      ensures ok == r.Ok?
      ensures conn.db == if r.Ok? then r.value else old(conn.db)
    {
      if r.Ok? {
        conn.db := r.value;
      }
      ok := r.Ok?;
    }

    method DropTable()
      modifies conn
      ensures conn.db == Schemas.DropTable(old(conn.db), tableName)
    {
      conn.db := Schemas.DropTable(conn.db, tableName);
    }

    method CreateTable(columns: seq<string>, locked: set<string>) returns (ok: bool)
      modifies conn
      ensures var r := Schemas.CreateTable(old(conn.db), tableName, columns, locked);
              ok == r.Ok? && conn.db == if r.Ok? then r.value else old(conn.db)
    {
      ok := Execute(Schemas.CreateTable(conn.db, tableName, columns, locked));
    }

    method AddIndex(column: string) returns (ok: bool)
      modifies conn
      ensures var r := Schemas.AddIndex(old(conn.db), tableName, column);
              ok == r.Ok? && conn.db == if r.Ok? then r.value else old(conn.db)
    {
      ok := Execute(Schemas.AddIndex(conn.db, tableName, column));
    }

    method DropColumn(column: string) returns (ok: bool)
      modifies conn
      ensures var r := Schemas.DropColumn(old(conn.db), tableName, column);
              ok == r.Ok? && conn.db == if r.Ok? then r.value else old(conn.db)
    {
      ok := Execute(Schemas.DropColumn(conn.db, tableName, column));
    }

    method AddColumn(column: string, default_: Value) returns (ok: bool)
      modifies conn
      ensures var r := Schemas.AddColumn(old(conn.db), tableName, column, default_);
              ok == r.Ok? && conn.db == if r.Ok? then r.value else old(conn.db)
    {
      ok := Execute(Schemas.AddColumn(conn.db, tableName, column, default_));
    }

    /** Walks the rows of `PRAGMA table_info`, which is empty for a missing table. */
    method ColumnExists(column: string) returns (found: bool)
      ensures found <==> tableName in conn.db.tables && column in conn.db.tables[tableName].columns
    {
      var rows := if tableName in conn.db.tables then conn.db.tables[tableName].columns else [];
      for k := 0 to |rows|
        invariant column !in rows[..k]
      {
        if rows[k] == column {
          return true;
        }
      }
      return false;
    }
  }
}
