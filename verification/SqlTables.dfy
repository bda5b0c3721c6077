/** One SQLite table with an AUTOINCREMENT id, as the DAOs use it: a natural key they look rows up
    by, an id they update rows by, and possibly a UNIQUE constraint. */
module SqlTables {
  import opened Wrappers

  datatype DbError = NoChangedRows | UpdateFailed | UniqueViolation

  /** `key` is the column `upsert` looks up; `clash` says which two rows UNIQUE refuses to hold together. */
  datatype Schema<!T> = Schema(key: T -> string, clash: (T, T) -> bool)

  datatype Row<+T> = Row(id: nat, item: T)

  /** Rows in the order SQLite scans them, and the largest id ever handed out. */
  datatype Table<+T> = Table(rows: seq<Row<T>>, lastId: nat) {

    predicate Valid() {
      && (forall i :: 0 <= i < |rows| ==> 1 <= rows[i].id <= lastId)
      && Ascending(rows)
    }

    ghost predicate HasId(id: nat) {
      exists i :: 0 <= i < |rows| && rows[i].id == id
    }
  }

  predicate Ascending<T>(rows: seq<Row<T>>) {
    forall i, j :: 0 <= i < j < |rows| ==> rows[i].id < rows[j].id
  }

  function Empty<T>(): Table<T> { Table([], 0) }

  // ----- statements

  /** The first row a predicate holds of: its position, or `|rows|`. */
  function Position<T>(rows: seq<Row<T>>, p: Row<T> -> bool): (k: nat)
    ensures k <= |rows|
    ensures k < |rows| ==> p(rows[k])
    ensures forall i :: 0 <= i < k ==> !p(rows[i])
  {
    if rows == [] then 0
    else if p(rows[0]) then 0
    else
      var k := Position(rows[1..], p);
      assert forall i :: 1 <= i < k + 1 ==> rows[i] == rows[1..][i - 1];
      k + 1
  }

  function IdIs<T>(id: nat): Row<T> -> bool { (r: Row<T>) => r.id == id }

  function KeyIs<T>(sch: Schema<T>, k: string): Row<T> -> bool { (r: Row<T>) => sch.key(r.item) == k }

  /** `SELECT … WHERE key = k`, first row. */
  function Get<T>(sch: Schema<T>, t: Table<T>, k: string): Option<Row<T>> {
    var i := Position(t.rows, KeyIs(sch, k));
    if i < |t.rows| then Some(t.rows[i]) else None
  }

  /** `SELECT … WHERE id = id`. */
  function GetById<T>(t: Table<T>, id: nat): Option<Row<T>> {
    var i := Position(t.rows, IdIs(id));
    if i < |t.rows| then Some(t.rows[i]) else None
  }

  predicate Clashes<T>(sch: Schema<T>, t: Table<T>, item: T, except: nat) {
    exists i :: 0 <= i < |t.rows| && i != except && sch.clash(t.rows[i].item, item)
  }

  /** `INSERT`: the next id, unless a row clashes. */
  function Insert<T>(sch: Schema<T>, t: Table<T>, item: T): Result<Table<T>, DbError> {
    if Clashes(sch, t, item, |t.rows|) then Err(UniqueViolation)
    else Ok(Table(t.rows + [Row(t.lastId + 1, item)], t.lastId + 1))
  }

  /** `UPDATE … WHERE id = id`, with zero affected rows reported as an error. */
  function Update<T>(sch: Schema<T>, t: Table<T>, id: nat, item: T): Result<Table<T>, DbError> {
    var i := Position(t.rows, IdIs(id));
    if i == |t.rows| then Err(NoChangedRows)
    else if Clashes(sch, t, item, i) then Err(UniqueViolation)
    else Ok(t.(rows := t.rows[i := Row(id, item)]))
  }

  /** `DELETE … WHERE p`. */
  function Delete<T>(t: Table<T>, p: Row<T> -> bool): Table<T> {
    t.(rows := Reject(t.rows, p))
  }

  function Reject<T>(rows: seq<Row<T>>, p: Row<T> -> bool): seq<Row<T>> {
    if rows == [] then []
    else if p(rows[0]) then Reject(rows[1..], p)
    else [rows[0]] + Reject(rows[1..], p)
  }

  /** `upsert`: the natural key decides between update and insert, but the update goes by `id`. */
  function Upsert<T>(sch: Schema<T>, t: Table<T>, id: nat, item: T): Result<Table<T>, DbError> {
    if Get(sch, t, sch.key(item)).Some? then Update(sch, t, id, item) else Insert(sch, t, item)
  }

  // ----- ids

  /** Ids only grow: a row is either one that was there or has an id never handed out before. */
  ghost predicate Grows<T>(t: Table<T>, t': Table<T>) {
    && t'.Valid() && t.lastId <= t'.lastId
    && (forall id :: t'.HasId(id) ==> t.HasId(id) || t.lastId < id)
  }

  lemma {:induction false} RejectMembers<T(!new)>(rows: seq<Row<T>>, p: Row<T> -> bool)
    ensures forall r :: r in Reject(rows, p) <==> r in rows && !p(r)
  {
    if rows != [] {
      assert rows == [rows[0]] + rows[1..];
      RejectMembers(rows[1..], p);
    }
  }

  /** A successful update leaves the item in the row its id names. */
  lemma UpdatedIsFound<T(!new)>(sch: Schema<T>, t: Table<T>, id: nat, item: T)
    ensures Update(sch, t, id, item).Ok? ==> GetById(Update(sch, t, id, item).value, id) == Some(Row(id, item))
  {
    var i := Position(t.rows, IdIs(id));
    if Update(sch, t, id, item).Ok? {
      var rows := t.rows[i := Row(id, item)];
      assert rows[i].id == id;
      assert forall j :: 0 <= j < i ==> rows[j] == t.rows[j];
    }
  }

  /** After a successful upsert the key is found, though not always in the row that was written. */
  lemma UpsertedIsFound<T(!new)>(sch: Schema<T>, t: Table<T>, id: nat, item: T)
    ensures Upsert(sch, t, id, item).Ok? ==>
              var t' := Upsert(sch, t, id, item).value;
              var found := Get(sch, t', sch.key(item));
              found.Some? && found.value in t'.rows && sch.key(found.value.item) == sch.key(item)
  {
    if Upsert(sch, t, id, item).Ok? {
      var t' := Upsert(sch, t, id, item).value;
      var i := if Get(sch, t, sch.key(item)).Some? then Position(t.rows, IdIs(id)) else |t.rows|;
      assert t'.rows[i].item == item;
      assert KeyIs(sch, sch.key(item))(t'.rows[i]);
    }
  }

  lemma DeletedById<T(!new)>(t: Table<T>, id: nat)
    ensures !Delete(t, IdIs<T>(id)).HasId(id)
    ensures forall r :: r in Delete(t, IdIs<T>(id)).rows <==> r in t.rows && r.id != id
  {
    DeletedWhere(t, IdIs<T>(id), id);
  }

  lemma DeletedByKey<T(!new)>(sch: Schema<T>, t: Table<T>, key: string)
    ensures Get(sch, Delete(t, KeyIs(sch, key)), key) == None
    ensures forall r :: r in Delete(t, KeyIs(sch, key)).rows <==> r in t.rows && sch.key(r.item) != key
  {
    var p := KeyIs(sch, key);
    RejectMembers(t.rows, p);
    var rows := Reject(t.rows, p);
    forall i | 0 <= i < |rows| ensures sch.key(rows[i].item) != key {
      var j := RejectIndex(t.rows, p, i);
    }
  }

  lemma DeletedWhere<T(!new)>(t: Table<T>, p: Row<T> -> bool, id: nat)
    requires forall r :: p(r) <==> r.id == id
    ensures !Delete(t, p).HasId(id)
    ensures forall r :: r in Delete(t, p).rows <==> r in t.rows && r.id != id
  {
    RejectMembers(t.rows, p);
    var rows := Reject(t.rows, p);
    forall i | 0 <= i < |rows| ensures rows[i].id != id {
      var j := RejectIndex(t.rows, p, i);
    }
  }

  lemma {:induction false} RejectIndex<T(!new)>(rows: seq<Row<T>>, p: Row<T> -> bool, i: nat) returns (j: nat)
    requires i < |Reject(rows, p)|
    ensures j < |rows| && rows[j] == Reject(rows, p)[i] && !p(rows[j])
  {
    if p(rows[0]) {
      j := RejectIndex(rows[1..], p, i);
      j := j + 1;
    } else if i == 0 {
      j := 0;
    } else {
      j := RejectIndex(rows[1..], p, i - 1);
      j := j + 1;
    }
  }

  lemma {:induction false} RejectAscends<T(!new)>(rows: seq<Row<T>>, p: Row<T> -> bool)
    requires Ascending(rows)
    ensures Ascending(Reject(rows, p))
  {
    if rows != [] {
      var tail, rest := rows[1..], Reject(rows[1..], p);
      RejectAscends(tail, p);
      forall i | 0 <= i < |rest| ensures rows[0].id < rest[i].id {
        var j := RejectIndex(tail, p, i);
        assert tail[j] == rows[j + 1];
      }
    }
  }

  lemma RejectKeeps<T(!new)>(rows: seq<Row<T>>, p: Row<T> -> bool, bound: nat)
    requires Table(rows, bound).Valid()
    ensures Table(Reject(rows, p), bound).Valid()
    ensures forall r :: r in Reject(rows, p) <==> r in rows && !p(r)
  {
    RejectMembers(rows, p);
    RejectAscends(rows, p);
    var rest := Reject(rows, p);
    forall i | 0 <= i < |rest| ensures 1 <= rest[i].id <= bound {
      var j := RejectIndex(rows, p, i);
    }
  }

  lemma InsertGrows<T(!new)>(sch: Schema<T>, t: Table<T>, item: T)
    requires t.Valid() && Insert(sch, t, item).Ok?
    ensures Grows(t, Insert(sch, t, item).value)
  {
    var t' := Insert(sch, t, item).value;
    forall id | t'.HasId(id) ensures t.HasId(id) || t.lastId < id {
      var i :| 0 <= i < |t'.rows| && t'.rows[i].id == id;
      if i < |t.rows| {
        assert t.rows[i].id == id;
      }
    }
  }

  lemma UpdateGrows<T(!new)>(sch: Schema<T>, t: Table<T>, id: nat, item: T)
    requires t.Valid() && Update(sch, t, id, item).Ok?
    ensures Grows(t, Update(sch, t, id, item).value)
  {
    var t' := Update(sch, t, id, item).value;
    assert forall i :: 0 <= i < |t.rows| ==> t'.rows[i].id == t.rows[i].id;
    forall x | t'.HasId(x) ensures t.HasId(x) {
      var i :| 0 <= i < |t'.rows| && t'.rows[i].id == x;
      assert t.rows[i].id == x;
    }
  }

  lemma DeleteGrows<T(!new)>(t: Table<T>, p: Row<T> -> bool)
    requires t.Valid()
    ensures Grows(t, Delete(t, p))
  {
    RejectKeeps(t.rows, p, t.lastId);
    forall x | Delete(t, p).HasId(x) ensures t.HasId(x) {
      var i :| 0 <= i < |Delete(t, p).rows| && Delete(t, p).rows[i].id == x;
      assert Delete(t, p).rows[i] in t.rows;
    }
  }

  lemma GrowsTransitive<T(!new)>(t1: Table<T>, t2: Table<T>, t3: Table<T>)
    requires Grows(t1, t2) && Grows(t2, t3)
    ensures Grows(t1, t3)
  {
  }

  // ----- the table as a map from keys to rows

  /** The table holds one row per key of `m`, and that row is `m[key]`. */
  ghost predicate Represents<T(!new)>(sch: Schema<T>, t: Table<T>, m: map<string, Row<T>>) {
    t.Valid() && RowsInMap(sch, t.rows, m) && MapInRows(sch, t.rows, m)
  }

  ghost predicate RowsInMap<T>(sch: Schema<T>, rows: seq<Row<T>>, m: map<string, Row<T>>) {
    forall i :: 0 <= i < |rows| ==> sch.key(rows[i].item) in m && m[sch.key(rows[i].item)] == rows[i]
  }

  ghost predicate MapInRows<T(!new)>(sch: Schema<T>, rows: seq<Row<T>>, m: map<string, Row<T>>) {
    forall k :: k in m ==> m[k] in rows && sch.key(m[k].item) == k
  }

  /** In a table that represents a map no two rows share a key, and `Get` is map lookup. */
  lemma GetIsLookup<T(!new)>(sch: Schema<T>, t: Table<T>, m: map<string, Row<T>>, k: string)
    requires Represents(sch, t, m)
    ensures Get(sch, t, k) == if k in m then Some(m[k]) else None
    ensures forall i, j :: 0 <= i < j < |t.rows| ==> sch.key(t.rows[i].item) != sch.key(t.rows[j].item)
  {
    if k in m {
      var i :| 0 <= i < |t.rows| && t.rows[i] == m[k];
      assert sch.key(t.rows[i].item) == k;
    }
  }

  /** The caller's side of `upsert`: the key is new, or the item carries the id of the row stored
      under it; and UNIQUE has nothing against it. */
  ghost predicate Permitted<T>(sch: Schema<T>, t: Table<T>, m: map<string, Row<T>>, id: nat, item: T) {
    var k := sch.key(item);
    if k in m then m[k].id == id && forall r :: r in t.rows && r.id != id ==> !sch.clash(r.item, item)
    else forall r :: r in t.rows ==> !sch.clash(r.item, item)
  }

  ghost function Put<T>(sch: Schema<T>, t: Table<T>, m: map<string, Row<T>>, item: T): map<string, Row<T>> {
    var k := sch.key(item);
    m[k := Row(if k in m then m[k].id else t.lastId + 1, item)]
  }

  lemma PositionOf<T(!new)>(t: Table<T>, id: nat, r: Row<T>)
    requires t.Valid() && r in t.rows && r.id == id
    ensures var i := Position(t.rows, IdIs(id));
            i < |t.rows| && t.rows[i] == r
  {
    var j :| 0 <= j < |t.rows| && t.rows[j] == r;
  }

  lemma PermittedUpdatePuts<T(!new)>(sch: Schema<T>, t: Table<T>, m: map<string, Row<T>>, id: nat, item: T)
    requires Represents(sch, t, m) && Permitted(sch, t, m, id, item) && sch.key(item) in m
    ensures Update(sch, t, id, item).Ok? && Represents(sch, Update(sch, t, id, item).value, Put(sch, t, m, item))
  {
    PositionOf(t, id, m[sch.key(item)]);
    var i := Position(t.rows, IdIs(id));
    forall j | 0 <= j < |t.rows| && j != i ensures !sch.clash(t.rows[j].item, item) {
      assert t.rows[j] in t.rows && t.rows[j].id != id;
    }
    assert !Clashes(sch, t, item, i);
    UpdateRepresents(sch, t, m, i, item);
  }

  lemma PermittedInsertPuts<T(!new)>(sch: Schema<T>, t: Table<T>, m: map<string, Row<T>>, id: nat, item: T)
    requires Represents(sch, t, m) && Permitted(sch, t, m, id, item) && sch.key(item) !in m
    ensures Insert(sch, t, item).Ok? && Represents(sch, Insert(sch, t, item).value, Put(sch, t, m, item))
  {
    forall j | 0 <= j < |t.rows| ensures !sch.clash(t.rows[j].item, item) {
      assert t.rows[j] in t.rows;
    }
    assert !Clashes(sch, t, item, |t.rows|);
    InsertRepresents(sch, t, m, item);
  }

  lemma PermittedUpsertPuts<T(!new)>(sch: Schema<T>, t: Table<T>, m: map<string, Row<T>>, id: nat, item: T)
    requires Represents(sch, t, m) && Permitted(sch, t, m, id, item)
    ensures Upsert(sch, t, id, item).Ok? && Represents(sch, Upsert(sch, t, id, item).value, Put(sch, t, m, item))
  {
    GetIsLookup(sch, t, m, sch.key(item));
    if sch.key(item) in m {
      PermittedUpdatePuts(sch, t, m, id, item);
    } else {
      PermittedInsertPuts(sch, t, m, id, item);
    }
  }

  lemma UpdateRepresents<T(!new)>(sch: Schema<T>, t: Table<T>, m: map<string, Row<T>>, i: nat, item: T)
    requires Represents(sch, t, m) && i < |t.rows| && sch.key(t.rows[i].item) == sch.key(item)
    ensures Represents(sch, t.(rows := t.rows[i := Row(t.rows[i].id, item)]), Put(sch, t, m, item))
  {
    var k, row := sch.key(item), Row(t.rows[i].id, item);
    GetIsLookup(sch, t, m, k);
    assert m[k] == t.rows[i];
    assert m[k := row] == Put(sch, t, m, item);
    var t' := t.(rows := t.rows[i := row]);
    assert forall j :: 0 <= j < |t.rows| ==> t'.rows[j].id == t.rows[j].id;
    assert t'.Valid();
    UpdateRowsInMap(sch, t.rows, m, i, row);
    UpdateMapInRows(sch, t.rows, m, i, row);
  }

  lemma UpdateRowsInMap<T(!new)>(sch: Schema<T>, rows: seq<Row<T>>, m: map<string, Row<T>>, i: nat, row: Row<T>)
    requires RowsInMap(sch, rows, m) && i < |rows|
    requires forall j :: 0 <= j < |rows| && j != i ==> sch.key(rows[j].item) != sch.key(row.item)
    ensures RowsInMap(sch, rows[i := row], m[sch.key(row.item) := row])
  {
  }

  lemma UpdateMapInRows<T(!new)>(sch: Schema<T>, rows: seq<Row<T>>, m: map<string, Row<T>>, i: nat, row: Row<T>)
    requires MapInRows(sch, rows, m) && i < |rows| && sch.key(rows[i].item) == sch.key(row.item)
    ensures MapInRows(sch, rows[i := row], m[sch.key(row.item) := row])
  {
    var k := sch.key(row.item);
    forall k' | k' in m && k' != k ensures m[k'] in rows[i := row] {
      var j :| 0 <= j < |rows| && rows[j] == m[k'];
      assert rows[i := row][j] == m[k'];
    }
    assert rows[i := row][i] == row;
  }

  lemma InsertRepresents<T(!new)>(sch: Schema<T>, t: Table<T>, m: map<string, Row<T>>, item: T)
    requires Represents(sch, t, m) && sch.key(item) !in m
    ensures Represents(sch, Table(t.rows + [Row(t.lastId + 1, item)], t.lastId + 1), Put(sch, t, m, item))
  {
    var t' := Table(t.rows + [Row(t.lastId + 1, item)], t.lastId + 1);
    var m' := Put(sch, t, m, item);
    forall k | k in m' ensures m'[k] in t'.rows && sch.key(m'[k].item) == k {
      if k == sch.key(item) {
        assert t'.rows[|t.rows|] == m'[k];
      }
    }
  }

  /** `upsert` behaves as map insertion exactly when it is permitted.  In every other case it fails
      and changes nothing, or it overwrites the row of another key and leaves a duplicate. */
  lemma UpsertPutsExactlyWhenPermitted<T(!new)>(sch: Schema<T>, t: Table<T>, m: map<string, Row<T>>, id: nat, item: T)
    requires Represents(sch, t, m)
    ensures var r := Upsert(sch, t, id, item);
            (r.Ok? && Represents(sch, r.value, Put(sch, t, m, item))) <==> Permitted(sch, t, m, id, item)
  {
    if Permitted(sch, t, m, id, item) {
      PermittedUpsertPuts(sch, t, m, id, item);
    } else {
      RefusedUpsert(sch, t, m, id, item);
    }
  }

  lemma RefusedUpsert<T(!new)>(sch: Schema<T>, t: Table<T>, m: map<string, Row<T>>, id: nat, item: T)
    requires Represents(sch, t, m) && !Permitted(sch, t, m, id, item)
    ensures var r := Upsert(sch, t, id, item);
            r.Ok? ==> !Represents(sch, r.value, Put(sch, t, m, item))
  {
    var k := sch.key(item);
    var r := Upsert(sch, t, id, item);
    GetIsLookup(sch, t, m, k);
    if r.Ok? && k in m {
      WrongIdOverwrites(sch, t, m, id, item);
    }
  }

  /** An id that no row has: `NoChangedRows`, and the table is as before (`Upsert` returns no new one). */
  lemma UnknownIdChangesNothing<T(!new)>(sch: Schema<T>, t: Table<T>, m: map<string, Row<T>>, id: nat, item: T)
    requires Represents(sch, t, m) && sch.key(item) in m
    ensures Upsert(sch, t, id, item) == Err(NoChangedRows) <==> !t.HasId(id)
  {
    GetIsLookup(sch, t, m, sch.key(item));
    var i := Position(t.rows, IdIs(id));
    if i < |t.rows| {
      assert t.rows[i].id == id;
    }
  }

  /** The id of another row: if UNIQUE lets it pass, that row is overwritten, its key disappears, and
      two rows now share the key of `item`. */
  lemma WrongIdOverwrites<T(!new)>(sch: Schema<T>, t: Table<T>, m: map<string, Row<T>>, id: nat, item: T)
    requires Represents(sch, t, m) && sch.key(item) in m
    requires Upsert(sch, t, id, item).Ok? && !Permitted(sch, t, m, id, item)
    ensures var t' := Upsert(sch, t, id, item).value;
            && (exists i, j :: 0 <= i < |t'.rows| && 0 <= j < |t'.rows| && i != j
                               && sch.key(t'.rows[i].item) == sch.key(t'.rows[j].item) == sch.key(item))
            && (exists lost :: lost in m && m[lost].id == id && lost != sch.key(item) && Get(sch, t', lost) == None)
            && (forall m' :: !Represents(sch, t', m'))
  {
    var k := sch.key(item);
    GetIsLookup(sch, t, m, k);
    var t' := Upsert(sch, t, id, item).value;
    var i := Position(t.rows, IdIs(id));
    var j :| 0 <= j < |t.rows| && t.rows[j] == m[k];
    assert t'.rows[i].item == item && t'.rows[j] == t.rows[j];
    var lost := sch.key(t.rows[i].item);
    GetIsLookup(sch, t, m, lost);
    forall n | 0 <= n < |t'.rows| ensures sch.key(t'.rows[n].item) != lost {
    }
    assert lost in m && m[lost].id == id;
    forall m' ensures !Represents(sch, t', m') {
      if Represents(sch, t', m') {
        GetIsLookup(sch, t', m', k);
      }
    }
  }

  lemma DeleteRepresents<T(!new)>(sch: Schema<T>, t: Table<T>, m: map<string, Row<T>>, p: Row<T> -> bool)
    requires Represents(sch, t, m)
    ensures Represents(sch, Delete(t, p), map k | k in m && !p(m[k]) :: m[k])
  {
    RejectKeeps(t.rows, p, t.lastId);
    var t' := Delete(t, p);
    forall i | 0 <= i < |t'.rows| ensures t'.rows[i] in t.rows && !p(t'.rows[i]) {
      assert t'.rows[i] in t'.rows;
    }
    forall i | 0 <= i < |t'.rows| ensures var k := sch.key(t'.rows[i].item); k in m && m[k] == t'.rows[i] {
      var j :| 0 <= j < |t.rows| && t.rows[j] == t'.rows[i];
    }
  }

  // ----- all runs

  datatype Op<!T> =
    | DoUpsert(id: nat, item: T)
    | DoDeleteById(id: nat)
    | DoDeleteByKey(key: string)
    | DoDeleteWhere(p: Row<T> -> bool)

  /** A failed upsert leaves the table alone. */
  function Apply<T>(sch: Schema<T>, t: Table<T>, op: Op<T>): Table<T> {
    match op
    case DoUpsert(id, item) =>
      var r := Upsert(sch, t, id, item);
      if r.Ok? then r.value else t
    case DoDeleteById(id) => Delete(t, IdIs(id))
    case DoDeleteByKey(key) => Delete(t, KeyIs(sch, key))
    case DoDeleteWhere(p) => Delete(t, p)
  }

  function Run<T>(sch: Schema<T>, t: Table<T>, ops: seq<Op<T>>): Table<T>
    decreases |ops|
  {
    if ops == [] then t else Run(sch, Apply(sch, t, ops[0]), ops[1..])
  }

  /** The same operations on the map. */
  ghost function ApplyToMap<T>(sch: Schema<T>, t: Table<T>, m: map<string, Row<T>>, op: Op<T>): map<string, Row<T>> {
    match op
    case DoUpsert(_, item) => Put(sch, t, m, item)
    case DoDeleteById(id) => map k | k in m && m[k].id != id :: m[k]
    case DoDeleteByKey(key) => m - {key}
    case DoDeleteWhere(p) => map k | k in m && !p(m[k]) :: m[k]
  }

  ghost function RunOnMap<T>(sch: Schema<T>, t: Table<T>, m: map<string, Row<T>>, ops: seq<Op<T>>): map<string, Row<T>>
    decreases |ops|
  {
    if ops == [] then m
    else RunOnMap(sch, Apply(sch, t, ops[0]), ApplyToMap(sch, t, m, ops[0]), ops[1..])
  }

  /** Every upsert of the run is permitted where it happens. */
  ghost predicate PermittedRun<T>(sch: Schema<T>, t: Table<T>, m: map<string, Row<T>>, ops: seq<Op<T>>)
    decreases |ops|
  {
    ops == [] ||
    (&& (ops[0].DoUpsert? ==> Permitted(sch, t, m, ops[0].id, ops[0].item))
     && PermittedRun(sch, Apply(sch, t, ops[0]), ApplyToMap(sch, t, m, ops[0]), ops[1..]))
  }

  lemma DeleteByIdRepresents<T(!new)>(sch: Schema<T>, t: Table<T>, m: map<string, Row<T>>, id: nat)
    requires Represents(sch, t, m)
    ensures Represents(sch, Delete(t, IdIs(id)), map k | k in m && m[k].id != id :: m[k])
  {
    var p := IdIs<T>(id);
    var m' := map k | k in m && !p(m[k]) :: m[k];
    assert m' == map k | k in m && m[k].id != id :: m[k];
    DeleteRepresents(sch, t, m, p);
  }

  lemma DeleteByKeyRepresents<T(!new)>(sch: Schema<T>, t: Table<T>, m: map<string, Row<T>>, key: string)
    requires Represents(sch, t, m)
    ensures Represents(sch, Delete(t, KeyIs(sch, key)), m - {key})
  {
    var p := KeyIs(sch, key);
    var m' := map k | k in m && !p(m[k]) :: m[k];
    assert m' == m - {key};
    DeleteRepresents(sch, t, m, p);
  }

  lemma ApplyRepresents<T(!new)>(sch: Schema<T>, t: Table<T>, m: map<string, Row<T>>, op: Op<T>)
    requires Represents(sch, t, m) && (op.DoUpsert? ==> Permitted(sch, t, m, op.id, op.item))
    ensures Represents(sch, Apply(sch, t, op), ApplyToMap(sch, t, m, op))
  {
    match op
    case DoUpsert(id, item) => PermittedUpsertPuts(sch, t, m, id, item);
    case DoDeleteById(id) => DeleteByIdRepresents(sch, t, m, id);
    case DoDeleteByKey(key) => DeleteByKeyRepresents(sch, t, m, key);
    case DoDeleteWhere(p) => DeleteRepresents(sch, t, m, p);
  }

  /** A run of permitted upserts and any deletes is the same run on a map: keys stay unique, and
      what is stored under each key is what the map holds. */
  lemma {:induction false} TableRefinesMap<T(!new)>(sch: Schema<T>, t: Table<T>, m: map<string, Row<T>>, ops: seq<Op<T>>)
    requires Represents(sch, t, m) && PermittedRun(sch, t, m, ops)
    ensures Represents(sch, Run(sch, t, ops), RunOnMap(sch, t, m, ops))
    ensures forall k :: Get(sch, Run(sch, t, ops), k) ==
                        var m' := RunOnMap(sch, t, m, ops); if k in m' then Some(m'[k]) else None
    decreases |ops|
  {
    if ops != [] {
      ApplyRepresents(sch, t, m, ops[0]);
      TableRefinesMap(sch, Apply(sch, t, ops[0]), ApplyToMap(sch, t, m, ops[0]), ops[1..]);
    } else {
      forall k ensures Get(sch, t, k) == if k in m then Some(m[k]) else None {
        GetIsLookup(sch, t, m, k);
      }
    }
  }

  /** In any run at all, permitted or not, ids are never reused: an id that has been handed out and
      is gone stays gone. */
  lemma {:induction false} IdsAreNeverReused<T(!new)>(sch: Schema<T>, t: Table<T>, ops: seq<Op<T>>)
    requires t.Valid()
    ensures Grows(t, Run(sch, t, ops))
    ensures forall id: nat :: id <= t.lastId && !t.HasId(id) ==> !Run(sch, t, ops).HasId(id)
    decreases |ops|
  {
    if ops != [] {
      var t' := Apply(sch, t, ops[0]);
      match ops[0] {
        case DoUpsert(id, item) =>
          if Upsert(sch, t, id, item).Ok? {
            if Get(sch, t, sch.key(item)).Some? {
              UpdateGrows(sch, t, id, item);
            } else {
              InsertGrows(sch, t, item);
            }
          }
        case DoDeleteById(id) => DeleteGrows(t, IdIs(id));
        case DoDeleteByKey(key) => DeleteGrows(t, KeyIs(sch, key));
        case DoDeleteWhere(p) => DeleteGrows(t, p);
      }
      IdsAreNeverReused(sch, t', ops[1..]);
      GrowsTransitive(t, t', Run(sch, t, ops));
    }
  }
}
