/** What `build_database` leaves behind, from any database and any stored version. */
module MigrationEffects {
  import opened Wrappers
  import opened MigrationPlanner
  import opened Schemas
  import opened AppDatabases

  // ----- which migrations run

  lemma PlannedPaths(oldVersion: nat)
    ensures GreedyPath(Registered(), oldVersion, VERSION) ==
            if oldVersion == 0 then None
            else if oldVersion == 1 then Some(MIGRATIONS)
            else if oldVersion == 2 then Some([Migration(2, 3, ResetPoolSize)])
            else Some([])
  {
    var c := Registered();
    assert MIGRATIONS[..1] == [MIGRATIONS[0]] && MIGRATIONS[..1][..0] == [];
    assert AddedAll<Action>(map[], MIGRATIONS[..1]) == map[1 := map[2 := MIGRATIONS[0]]];
    assert c == map[1 := map[2 := MIGRATIONS[0]], 2 := map[3 := MIGRATIONS[1]]];
    assert Admissible(c, 2, 3) == {3} && Admissible(c, 1, 3) == {2};
    assert Least({3}) == 3 && Least({2}) == 2;
    assert GreedyPath(c, 3, 3) == Some([]);
    assert [MIGRATIONS[1]] + [] == [MIGRATIONS[1]];
    assert GreedyPath(c, 2, 3) == Some([MIGRATIONS[1]]);
    assert MIGRATIONS == [MIGRATIONS[0]] + [MIGRATIONS[1]];
  }

  /** What is built from each stored version. */
  lemma BuildFromVersion(db: Db, oldVersion: nat)
    ensures Build(db, Registered(), oldVersion) ==
            if oldVersion == 1 then ResetPool(CreateEach(db, SPECS))
            else if oldVersion == 2 then ResetPool(db)
            else db
  {
    PlannedPaths(oldVersion);
    if oldVersion == 1 {
      assert MIGRATIONS[1..] == [Migration(2, 3, ResetPoolSize)];
      assert PerformAll(CreateEach(db, SPECS), MIGRATIONS[1..]) == ResetPool(CreateEach(db, SPECS));
    }
  }

  // ----- the lists of tables

  function FreshTable(spec: TableSpec): TableDef { TableDef(spec.columns, spec.locked, []) }

  /** Table names are distinct and not index names; indexes are asked for on columns of the table. */
  ghost predicate Consistent(specs: seq<TableSpec>) {
    && (forall i, j :: 0 <= i < j < |specs| ==> specs[i].name != specs[j].name)
    && (forall i :: 0 <= i < |specs| ==> !IsIndexName(specs[i].name) && forall c :: c in specs[i].indexed ==> c in specs[i].columns)
  }

  predicate IsIndexName(i: string) { |i| >= 4 && i[0] == 'i' && i[1] == 'd' && i[2] == 'x' && i[3] == '_' }

  lemma SpecNamesDiffer()
    ensures forall i, j :: 0 <= i < j < |SPECS| ==> SPECS[i].name != SPECS[j].name
  {
  }

  lemma SpecsAreConsistent()
    ensures Consistent(SPECS)
  {
    SpecNamesDiffer();
    assert WALLET.columns[11] == "wallet_id" && ACCOUNT.columns[2] == "wallet_id" && ACCOUNT.columns[1] == "account_id";
    assert ADDRESS.columns[1] == BITCOIN_ADDRESS.columns[1] == EXCHANGE_RATE.columns[1] == TRANSACTIONS.columns[12] == "server_id";
    assert CONTACTS.columns[1] == "server_contact_id" && USERS.columns[1] == "user_id" && USER_KEYS.columns[0] == "key_id";
  }

  // ----- names that stand in the way

  /** When its turn comes, table `k` cannot be created: an index has its name, and no table dropped so far owns it. */
  ghost predicate Blocked(db: Db, specs: seq<TableSpec>, k: nat)
    requires k < |specs|
  {
    specs[k].name in db.indexes && forall j :: 0 <= j <= k ==> specs[j].name != db.indexes[specs[k].name].table
  }

  /** The columns up to the first whose index name belongs to a table: there the statement fails. */
  function Reachable(tables: set<string>, columns: seq<string>): seq<string> {
    if columns == [] || IndexName(columns[0]) in tables then []
    else [columns[0]] + Reachable(tables, columns[1..])
  }

  /** The tables with the indexes each of them gets to ask for. */
  ghost function Effective(db: Db, specs: seq<TableSpec>): (es: seq<TableSpec>)
    ensures |es| == |specs|
  {
    seq(|specs|, k requires 0 <= k < |specs| =>
      specs[k].(indexed := if Blocked(db, specs, k) then [] else Reachable(db.tables.Keys, specs[k].indexed)))
  }

  /** No existing index is named like one of the tables, and no existing table like one of their indexes. */
  ghost predicate NoNameClash(db: Db, specs: seq<TableSpec>) {
    forall k :: 0 <= k < |specs| ==>
      specs[k].name !in db.indexes && forall c :: c in specs[k].indexed ==> IndexName(c) !in db.tables
  }

  /** Without such clashes every table is created and asks for all its indexes. */
  lemma NothingInTheWay(db: Db, specs: seq<TableSpec>)
    requires NoNameClash(db, specs)
    ensures (forall k :: 0 <= k < |specs| ==> !Blocked(db, specs, k)) && Effective(db, specs) == specs
  {
    forall k | 0 <= k < |specs| ensures Effective(db, specs)[k] == specs[k] {
      ReachesAll(db.tables.Keys, specs[k].indexed);
    }
  }

  lemma {:induction false} ReachesAll(tables: set<string>, columns: seq<string>)
    requires forall c :: c in columns ==> IndexName(c) !in tables
    ensures Reachable(tables, columns) == columns
  {
    if columns != [] {
      assert columns[0] in columns;
      ReachesAll(tables, columns[1..]);
    }
  }

  lemma {:induction false} ReachableIsPart(tables: set<string>, columns: seq<string>)
    ensures forall c :: c in Reachable(tables, columns) ==> c in columns && IndexName(c) !in tables
  {
    if columns != [] {
      ReachableIsPart(tables, columns[1..]);
    }
  }

  /** Only tables named like indexes matter. */
  lemma {:induction false} ReachableDependsOn(t1: set<string>, t2: set<string>, columns: seq<string>)
    requires forall i :: IsIndexName(i) ==> (i in t1 <==> i in t2)
    ensures Reachable(t1, columns) == Reachable(t2, columns)
  {
    if columns != [] {
      IndexNameIsOne(columns[0]);
      ReachableDependsOn(t1, t2, columns[1..]);
    }
  }

  lemma IndexNameIsOne(column: string)
    ensures IsIndexName(IndexName(column)) && IndexName(column)[4..] == column
  {
    assert IndexName(column)[..4] == "idx_";
  }

  lemma EffectiveIsConsistent(db: Db, specs: seq<TableSpec>)
    requires Consistent(specs)
    ensures Consistent(Effective(db, specs))
  {
    var es := Effective(db, specs);
    forall k | 0 <= k < |es| ensures !IsIndexName(es[k].name) && forall c :: c in es[k].indexed ==> c in es[k].columns {
      ReachableIsPart(db.tables.Keys, specs[k].indexed);
    }
  }

  // ----- indexes as a map of names

  function Purge(indexes: map<string, Index>, t: string): map<string, Index> {
    map i | i in indexes && indexes[i].table != t :: indexes[i]
  }

  function AddNames(indexes: map<string, Index>, t: string, columns: seq<string>): map<string, Index>
    decreases |columns|
  {
    if columns == [] then indexes
    else
      var i := IndexName(columns[0]);
      AddNames(if i in indexes then indexes else indexes[i := Index(t, columns[0])], t, columns[1..])
  }

  function ReIndex(indexes: map<string, Index>, spec: TableSpec): map<string, Index> {
    AddNames(Purge(indexes, spec.name), spec.name, spec.indexed)
  }

  function ReIndexEach(indexes: map<string, Index>, specs: seq<TableSpec>, n: nat): map<string, Index>
    requires n <= |specs|
  {
    if n == 0 then indexes else ReIndex(ReIndexEach(indexes, specs, n - 1), specs[n - 1])
  }

  /** Adding indexes to a table that has the columns goes on up to the first name that belongs to a table,
      and touches nothing else. */
  lemma {:induction false} AddIndexesEffect(db: Db, t: string, columns: seq<string>)
    requires t in db.tables && forall c :: c in columns ==> c in db.tables[t].columns
    ensures AddIndexes(db, t, columns) == db.(indexes := AddNames(db.indexes, t, Reachable(db.tables.Keys, columns)))
    decreases |columns|
  {
    if columns != [] && IndexName(columns[0]) !in db.tables {
      assert columns[0] in columns;
      var reached := Reachable(db.tables.Keys, columns);
      assert reached[0] == columns[0] && reached[1..] == Reachable(db.tables.Keys, columns[1..]);
      AddIndexesEffect(AddIndex(db, t, columns[0]).value, t, columns[1..]);
    }
  }

  lemma {:induction false} AddedNames(indexes: map<string, Index>, t: string, columns: seq<string>, i: string)
    ensures i in AddNames(indexes, t, columns) <==> i in indexes || (IsIndexName(i) && i[4..] in columns)
    ensures i in AddNames(indexes, t, columns) ==>
              AddNames(indexes, t, columns)[i] == if i in indexes then indexes[i] else Index(t, i[4..])
    decreases |columns|
  {
    if columns != [] {
      var first := IndexName(columns[0]);
      assert first[..4] == "idx_" && first[4..] == columns[0];
      assert IsIndexName(i) ==> i == "idx_" + i[4..];
      assert columns == [columns[0]] + columns[1..];
      AddedNames(if first in indexes then indexes else indexes[first := Index(t, columns[0])], t, columns[1..], i);
    }
  }

  lemma CreateOneEffect(db: Db, spec: TableSpec)
    requires !IsIndexName(spec.name) && forall c :: c in spec.indexed ==> c in spec.columns
    ensures var db' := CreateOne(db, spec);
            var left := Purge(db.indexes, spec.name);
            if spec.name in left then db' == Db(db.tables - {spec.name}, left)
            else db' == Db(db.tables[spec.name := FreshTable(spec)],
                           AddNames(left, spec.name, Reachable(db.tables.Keys, spec.indexed)))
  {
    var dropped := DropTable(db, spec.name);
    assert dropped.indexes == Purge(db.indexes, spec.name);
    if spec.name !in dropped.indexes {
      var created := CreateTable(dropped, spec.name, spec.columns, spec.locked).value;
      assert created.tables == db.tables[spec.name := FreshTable(spec)];
      AddIndexesEffect(created, spec.name, spec.indexed);
      ReachableDependsOn(created.tables.Keys, db.tables.Keys, spec.indexed);
    }
  }

  ghost predicate Listed(specs: seq<TableSpec>, n: nat, t: string)
    requires n <= |specs|
  {
    exists k :: 0 <= k < n && specs[k].name == t
  }

  /** The first `n` tables are as the spec says or absent if blocked, every unlisted one is as in `db`. */
  ghost predicate CreatedFirst(db: Db, db': Db, specs: seq<TableSpec>, n: nat)
    requires n <= |specs|
  {
    && (forall k :: 0 <= k < n ==>
          if Blocked(db, specs, k) then specs[k].name !in db'.tables
          else specs[k].name in db'.tables && db'.tables[specs[k].name] == FreshTable(specs[k]))
    && (forall t :: !Listed(specs, n, t) ==>
          (t in db'.tables <==> t in db.tables) && (t in db.tables ==> db'.tables[t] == db.tables[t]))
  }

  /** Names that are no index names keep their indexes until the owner is dropped. */
  ghost predicate OtherNames(db: Db, db': Db, specs: seq<TableSpec>, n: nat)
    requires n <= |specs|
  {
    forall i :: !IsIndexName(i) ==>
      (i in db'.indexes <==> i in db.indexes && !Listed(specs, n, db.indexes[i].table))
      && (i in db'.indexes ==> db'.indexes[i] == db.indexes[i])
  }

  lemma ListedNext(specs: seq<TableSpec>, n: nat, t: string)
    requires n < |specs|
    ensures Listed(specs, n + 1, t) <==> Listed(specs, n, t) || t == specs[n].name
  {
    if Listed(specs, n + 1, t) {
      var k :| 0 <= k < n + 1 && specs[k].name == t;
      assert k < n ==> Listed(specs, n, t);
    }
  }

  /** Whether the table is blocked can be told from the database before the run. */
  lemma BlockedNext(db: Db, mid: Db, specs: seq<TableSpec>, n: nat)
    requires Consistent(specs) && n < |specs| && OtherNames(db, mid, specs, n)
    ensures specs[n].name in Purge(mid.indexes, specs[n].name) <==> Blocked(db, specs, n)
  {
    var name := specs[n].name;
    if name in db.indexes {
      ListedNext(specs, n, db.indexes[name].table);
      assert Blocked(db, specs, n) <==> !Listed(specs, n + 1, db.indexes[name].table);
    }
  }

  lemma CreatedNext(db: Db, mid: Db, specs: seq<TableSpec>, n: nat)
    requires Consistent(specs) && n < |specs| && CreatedFirst(db, mid, specs, n) && OtherNames(db, mid, specs, n)
    ensures CreatedFirst(db, CreateOne(mid, specs[n]), specs, n + 1)
  {
    var db' := CreateOne(mid, specs[n]);
    OneTableMade(db, mid, specs, n);
    ListedAfter(db, mid, db', specs, n);
    UnlistedAfter(db, mid, db', specs, n);
  }

  lemma OneTableMade(db: Db, mid: Db, specs: seq<TableSpec>, n: nat)
    requires Consistent(specs) && n < |specs| && OtherNames(db, mid, specs, n)
    ensures var db' := CreateOne(mid, specs[n]);
            && OnlyTable(mid, db', specs[n].name)
            && if Blocked(db, specs, n) then specs[n].name !in db'.tables
               else specs[n].name in db'.tables && db'.tables[specs[n].name] == FreshTable(specs[n])
  {
    BlockedNext(db, mid, specs, n);
    CreateOneEffect(mid, specs[n]);
  }

  /** The statement touches no table but its own. */
  ghost predicate OnlyTable(mid: Db, db': Db, name: string) {
    forall t :: t != name ==> (t in db'.tables <==> t in mid.tables) && (t in mid.tables ==> db'.tables[t] == mid.tables[t])
  }

  lemma ListedAfter(db: Db, mid: Db, db': Db, specs: seq<TableSpec>, n: nat)
    requires Consistent(specs) && n < |specs| && CreatedFirst(db, mid, specs, n) && OnlyTable(mid, db', specs[n].name)
    requires if Blocked(db, specs, n) then specs[n].name !in db'.tables
             else specs[n].name in db'.tables && db'.tables[specs[n].name] == FreshTable(specs[n])
    ensures forall k :: 0 <= k < n + 1 ==>
              if Blocked(db, specs, k) then specs[k].name !in db'.tables
              else specs[k].name in db'.tables && db'.tables[specs[k].name] == FreshTable(specs[k])
  {
    forall k | 0 <= k < n ensures specs[k].name != specs[n].name {
    }
  }

  lemma UnlistedAfter(db: Db, mid: Db, db': Db, specs: seq<TableSpec>, n: nat)
    requires n < |specs| && CreatedFirst(db, mid, specs, n) && OnlyTable(mid, db', specs[n].name)
    ensures forall t :: !Listed(specs, n + 1, t) ==>
              (t in db'.tables <==> t in db.tables) && (t in db.tables ==> db'.tables[t] == db.tables[t])
  {
    forall t | !Listed(specs, n + 1, t) ensures !Listed(specs, n, t) && t != specs[n].name {
      ListedNext(specs, n, t);
    }
  }

  lemma OtherNamesNext(db: Db, mid: Db, specs: seq<TableSpec>, n: nat)
    requires Consistent(specs) && n < |specs| && OtherNames(db, mid, specs, n)
    ensures OtherNames(db, CreateOne(mid, specs[n]), specs, n + 1)
  {
    CreateOneEffect(mid, specs[n]);
    forall t ensures Listed(specs, n + 1, t) <==> Listed(specs, n, t) || t == specs[n].name {
      ListedNext(specs, n, t);
    }
    var left := Purge(mid.indexes, specs[n].name);
    forall i | !IsIndexName(i) ensures i in CreateOne(mid, specs[n]).indexes <==> i in left {
      AddedNames(left, specs[n].name, Reachable(mid.tables.Keys, specs[n].indexed), i);
    }
    forall i | !IsIndexName(i) && i in left ensures CreateOne(mid, specs[n]).indexes[i] == left[i] {
      AddedNames(left, specs[n].name, Reachable(mid.tables.Keys, specs[n].indexed), i);
    }
  }

  lemma CreateEachLast(db: Db, specs: seq<TableSpec>, n: nat)
    requires 0 < n <= |specs|
    ensures CreateEach(db, specs[..n]) == CreateOne(CreateEach(db, specs[..n - 1]), specs[n - 1])
  {
    assert specs[..n][..n - 1] == specs[..n - 1];
  }

  lemma {:induction false} CreateEachEffect(db: Db, specs: seq<TableSpec>, n: nat)
    requires Consistent(specs) && n <= |specs|
    ensures CreateEach(db, specs[..n]).indexes == ReIndexEach(db.indexes, Effective(db, specs), n)
    ensures CreatedFirst(db, CreateEach(db, specs[..n]), specs, n)
    ensures OtherNames(db, CreateEach(db, specs[..n]), specs, n)
  {
    if n > 0 {
      CreateEachEffect(db, specs, n - 1);
      NextEffect(db, CreateEach(db, specs[..n - 1]), specs, n - 1);
      CreateEachLast(db, specs, n);
      assert ReIndexEach(db.indexes, Effective(db, specs), n)
          == ReIndex(ReIndexEach(db.indexes, Effective(db, specs), n - 1), Effective(db, specs)[n - 1]);
    }
  }

  lemma NextEffect(db: Db, mid: Db, specs: seq<TableSpec>, n: nat)
    requires Consistent(specs) && n < |specs| && CreatedFirst(db, mid, specs, n) && OtherNames(db, mid, specs, n)
    ensures var db' := CreateOne(mid, specs[n]);
            && db'.indexes == ReIndex(mid.indexes, Effective(db, specs)[n])
            && CreatedFirst(db, db', specs, n + 1) && OtherNames(db, db', specs, n + 1)
  {
    CreatedNext(db, mid, specs, n);
    OtherNamesNext(db, mid, specs, n);
    ReIndexedNext(db, mid, specs, n);
  }

  lemma ReIndexedNext(db: Db, mid: Db, specs: seq<TableSpec>, n: nat)
    requires Consistent(specs) && n < |specs| && CreatedFirst(db, mid, specs, n) && OtherNames(db, mid, specs, n)
    ensures CreateOne(mid, specs[n]).indexes == ReIndex(mid.indexes, Effective(db, specs)[n])
  {
    BlockedNext(db, mid, specs, n);
    CreateOneEffect(mid, specs[n]);
    SameIndexTables(db, mid, specs, n);
    ReachableDependsOn(mid.tables.Keys, db.tables.Keys, specs[n].indexed);
  }

  /** No listed table is named like an index, so the run neither makes nor drops a table that is. */
  lemma SameIndexTables(db: Db, mid: Db, specs: seq<TableSpec>, n: nat)
    requires Consistent(specs) && n <= |specs| && CreatedFirst(db, mid, specs, n)
    ensures forall i :: IsIndexName(i) ==> (i in mid.tables <==> i in db.tables)
  {
    forall i | IsIndexName(i) ensures i in mid.tables <==> i in db.tables {
      assert !Listed(specs, n, i);
    }
  }

  // ----- the reset of pool_size

  /** Whether `migration_1` can drop the column, or need not. */
  predicate PoolSizeFree(db: Db)
    requires ACCOUNT.name in db.tables
  {
    POOL_SIZE in db.tables[ACCOUNT.name].columns ==> Droppable(db, ACCOUNT.name, POOL_SIZE)
  }

  /** The account table with `pool_size` last and 10 in every row. */
  ghost predicate PoolReset(before: TableDef, after: TableDef) {
    && after.columns == Without(before.columns, "pool_size") + ["pool_size"]
    && after.locked == before.locked
    && |after.rows| == |before.rows|
    && forall i :: 0 <= i < |before.rows| ==> after.rows[i] == before.rows[i]["pool_size" := Number(10)]
  }

  lemma {:induction false} WithoutMissing(columns: seq<string>, column: string)
    requires column !in columns
    ensures Without(columns, column) == columns
  {
    if columns != [] {
      WithoutMissing(columns[1..], column);
    }
  }

  /** `migration_1` keeps every row and every other column, in order, and sets `pool_size` to 10 in
      all of them, unless the column is constrained, indexed or the only one: then it changes nothing. */
  lemma ResetPoolEffect(db: Db)
    requires ACCOUNT.name in db.tables
    ensures var db' := ResetPool(db);
            && db'.indexes == db.indexes
            && db'.tables.Keys == db.tables.Keys
            && (forall t :: t in db.tables && t != ACCOUNT.name ==> db'.tables[t] == db.tables[t])
            && (PoolSizeFree(db) ==> PoolReset(db.tables[ACCOUNT.name], db'.tables[ACCOUNT.name]))
            && (!PoolSizeFree(db) ==> db' == db)
  {
    var before := db.tables[ACCOUNT.name];
    if POOL_SIZE !in before.columns {
      WithoutMissing(before.columns, POOL_SIZE);
    }
  }

  /** Resetting twice is resetting once. */
  lemma ResetPoolIsIdempotent(db: Db)
    requires db.Valid()
    ensures ResetPool(ResetPool(db)) == ResetPool(db)
  {
    if ACCOUNT.name in db.tables && PoolSizeFree(db) {
      var once, twice := ResetPool(db), ResetPool(ResetPool(db));
      var t0, t1 := db.tables[ACCOUNT.name], once.tables[ACCOUNT.name];
      ResetPoolEffect(db);
      ResetPoolEffect(once);
      if PoolSizeFree(once) {
        var kept := Without(t0.columns, POOL_SIZE);
        WithoutMissing(kept, POOL_SIZE);
        WithoutLast(kept, POOL_SIZE);
        var t2 := twice.tables[ACCOUNT.name];
        forall i | 0 <= i < |t1.rows| ensures t2.rows[i] == t1.rows[i] {
          assert t1.rows[i] == t0.rows[i][POOL_SIZE := POOL_SIZE_DEFAULT];
        }
        assert t2.rows == t1.rows;
        assert twice.tables == once.tables;
      }
    } else if ACCOUNT.name in db.tables {
      ResetPoolEffect(db);
    }
  }

  lemma {:induction false} WithoutLast(columns: seq<string>, column: string)
    ensures Without(columns + [column], column) == Without(columns, column)
  {
    if columns != [] {
      assert (columns + [column])[1..] == columns[1..] + [column];
      WithoutLast(columns[1..], column);
    }
  }

  // ----- the whole upgrade from version 1

  /** The account table after both migrations. */
  function FinalTable(spec: TableSpec): TableDef {
    if spec.name == ACCOUNT.name then TableDef(spec.columns + [POOL_SIZE], spec.locked, []) else FreshTable(spec)
  }

  /** Every listed table is there in its final form unless it is blocked, and every other table is as in `db`. */
  ghost predicate Rebuilt(db: Db, db': Db, specs: seq<TableSpec>) {
    && (forall k :: 0 <= k < |specs| ==>
          if Blocked(db, specs, k) then specs[k].name !in db'.tables
          else specs[k].name in db'.tables && db'.tables[specs[k].name] == FinalTable(specs[k]))
    && (forall t :: !Listed(specs, |specs|, t) ==>
          (t in db'.tables <==> t in db.tables) && (t in db.tables ==> db'.tables[t] == db.tables[t]))
  }

  lemma CreateThenReset(db: Db, specs: seq<TableSpec>, account: nat)
    requires Consistent(specs) && account < |specs| && specs[account] == ACCOUNT
    ensures var db' := ResetPool(CreateEach(db, specs));
            && Rebuilt(db, db', specs) && OtherNames(db, db', specs, |specs|)
            && db'.indexes == ReIndexEach(db.indexes, Effective(db, specs), |specs|)
  {
    CreateEachEffect(db, specs, |specs|);
    assert specs[..|specs|] == specs;
    if Blocked(db, specs, account) {
      assert ResetPool(CreateEach(db, specs)) == CreateEach(db, specs);
    } else {
      ResetFreshAccount(CreateEach(db, specs));
    }
    forall k | 0 <= k < |specs| && k != account ensures specs[k].name != ACCOUNT.name {
    }
  }

  /** From version 1 and any database whatever: a listed table ends up empty with its fixed columns, the
      account table with one `pool_size`, if and only if nothing blocks it, and is absent otherwise; every
      other table is untouched. */
  lemma FullBuildEffect(db: Db)
    ensures var db' := Build(db, Registered(), 1);
            && Rebuilt(db, db', SPECS) && OtherNames(db, db', SPECS, |SPECS|)
            && db'.indexes == ReIndexEach(db.indexes, Effective(db, SPECS), |SPECS|)
  {
    SpecsAreConsistent();
    BuildFromVersion(db, 1);
    CreateThenReset(db, SPECS, 1);
  }

  /** In the usual case the ten tables are all there. */
  lemma UsualBuild(db: Db)
    requires NoNameClash(db, SPECS)
    ensures var db' := Build(db, Registered(), 1);
            && (forall k :: 0 <= k < |SPECS| ==> SPECS[k].name in db'.tables && db'.tables[SPECS[k].name] == FinalTable(SPECS[k]))
            && db'.indexes == ReIndexEach(db.indexes, SPECS, |SPECS|)
  {
    FullBuildEffect(db);
    NothingInTheWay(db, SPECS);
  }

  /** A database in which an index on some other table happens to be called `account_table`. */
  function TakenName(): Db {
    Db(map["notes" := TableDef(["text"], {}, [])], map["account_table" := Index("notes", "text")])
  }

  lemma TakenNameBlocks()
    ensures TakenName().Valid() && SPECS[1] == ACCOUNT && Blocked(TakenName(), SPECS, 1)
  {
    assert SPECS[0].name[0] == 'w' && SPECS[1].name[0] == 'a';
  }

  /** Built from it, the application has no account table. */
  lemma TakenNameLosesAccounts()
    ensures ACCOUNT.name !in Build(TakenName(), Registered(), 1).tables
  {
    TakenNameBlocks();
    FullBuildEffect(TakenName());
  }

  lemma ResetFreshAccount(db: Db)
    requires ACCOUNT.name in db.tables && db.tables[ACCOUNT.name] == FreshTable(ACCOUNT)
    ensures ResetPool(db) == db.(tables := db.tables[ACCOUNT.name := FinalTable(ACCOUNT)])
  {
    assert POOL_SIZE !in ACCOUNT.columns;
    ResetPoolEffect(db);
    WithoutMissing(ACCOUNT.columns, POOL_SIZE);
  }

  /** From version 2 the upgrade is the reset of `pool_size` alone; from 0, and from 3 on, it is nothing. */
  lemma OtherVersions(db: Db, oldVersion: nat)
    requires oldVersion != 1
    ensures oldVersion == 2 ==> Build(db, Registered(), oldVersion) == ResetPool(db)
    ensures oldVersion != 2 ==> Build(db, Registered(), oldVersion) == db
  {
    BuildFromVersion(db, oldVersion);
  }

  // ----- every upgrade keeps the database well-formed

  /** The columns of a listed table are distinct, and its constraints are on columns it has. */
  ghost predicate WellSpecified(spec: TableSpec) {
    ValidTable(FreshTable(spec))
  }

  lemma {:induction false} AddIndexesKeepsValid(db: Db, t: string, columns: seq<string>)
    requires db.Valid()
    ensures AddIndexes(db, t, columns).Valid()
    decreases |columns|
  {
    if columns != [] && AddIndex(db, t, columns[0]).Ok? {
      AddIndexKeepsValid(db, t, columns[0]);
      AddIndexesKeepsValid(AddIndex(db, t, columns[0]).value, t, columns[1..]);
    }
  }

  lemma CreateOneKeepsValid(db: Db, spec: TableSpec)
    requires db.Valid() && WellSpecified(spec)
    ensures CreateOne(db, spec).Valid()
  {
    var dropped := DropTable(db, spec.name);
    DropTableKeepsValid(db, spec.name);
    CreateTableKeepsValid(dropped, spec.name, spec.columns, spec.locked);
    var created := CreateTable(dropped, spec.name, spec.columns, spec.locked);
    if created.Ok? {
      AddIndexesKeepsValid(created.value, spec.name, spec.indexed);
    }
  }

  lemma {:induction false} CreateEachKeepsValid(db: Db, specs: seq<TableSpec>)
    requires db.Valid() && forall k :: 0 <= k < |specs| ==> WellSpecified(specs[k])
    ensures CreateEach(db, specs).Valid()
  {
    if specs != [] {
      CreateEachKeepsValid(db, specs[..|specs| - 1]);
      CreateOneKeepsValid(CreateEach(db, specs[..|specs| - 1]), specs[|specs| - 1]);
    }
  }

  lemma ResetPoolKeepsValid(db: Db)
    requires db.Valid()
    ensures ResetPool(db).Valid()
  {
    DropColumnKeepsValid(db, ACCOUNT.name, POOL_SIZE);
    var dropped := DropColumn(db, ACCOUNT.name, POOL_SIZE);
    AddColumnKeepsValid(if dropped.Ok? then dropped.value else db, ACCOUNT.name, POOL_SIZE, POOL_SIZE_DEFAULT);
  }

  lemma WalletStart()
    ensures forall i, j :: 0 <= i < 5 && i < j < |WALLET.columns| ==> WALLET.columns[i] != WALLET.columns[j]
  {
  }

  lemma WalletMiddle()
    ensures forall i, j :: 5 <= i < 10 && i < j < |WALLET.columns| ==> WALLET.columns[i] != WALLET.columns[j]
  {
  }

  lemma WalletEnd()
    ensures forall i, j :: 10 <= i < j < |WALLET.columns| ==> WALLET.columns[i] != WALLET.columns[j]
  {
  }

  lemma WalletLocks()
    ensures forall c :: c in WALLET.locked ==> c in WALLET.columns
  {
  }

  lemma WalletIsWellSpecified()
    ensures WellSpecified(WALLET)
  {
    WalletStart();
    WalletMiddle();
    WalletEnd();
    WalletLocks();
  }

  lemma AccountIsWellSpecified()
    ensures WellSpecified(ACCOUNT)
  {
  }

  lemma AddressIsWellSpecified()
    ensures WellSpecified(ADDRESS)
  {
  }

  lemma BitcoinAddressIsWellSpecified()
    ensures WellSpecified(BITCOIN_ADDRESS)
  {
  }

  lemma ContactsIsWellSpecified()
    ensures WellSpecified(CONTACTS)
  {
  }

  lemma ExchangeRateIsWellSpecified()
    ensures WellSpecified(EXCHANGE_RATE)
  {
  }

  lemma UsersStart()
    ensures forall i, j :: 0 <= i < 5 && i < j < |USERS.columns| ==> USERS.columns[i] != USERS.columns[j]
  {
  }

  lemma UsersMiddle()
    ensures forall i, j :: 5 <= i < 10 && i < j < |USERS.columns| ==> USERS.columns[i] != USERS.columns[j]
  {
  }

  lemma UsersEnd()
    ensures forall i, j :: 10 <= i < j < |USERS.columns| ==> USERS.columns[i] != USERS.columns[j]
  {
  }

  lemma UsersLocks()
    ensures forall c :: c in USERS.locked ==> c in USERS.columns
  {
  }

  lemma UsersIsWellSpecified()
    ensures WellSpecified(USERS)
  {
    UsersStart();
    UsersMiddle();
    UsersEnd();
    UsersLocks();
  }

  lemma UserKeysIsWellSpecified()
    ensures WellSpecified(USER_KEYS)
  {
  }

  lemma TransactionsStart()
    ensures forall i, j :: 0 <= i < 5 && i < j < |TRANSACTIONS.columns| ==> TRANSACTIONS.columns[i] != TRANSACTIONS.columns[j]
  {
  }

  lemma TransactionsMiddle()
    ensures forall i, j :: 5 <= i < 10 && i < j < |TRANSACTIONS.columns| ==> TRANSACTIONS.columns[i] != TRANSACTIONS.columns[j]
  {
  }

  lemma TransactionsEnd()
    ensures forall i, j :: 10 <= i < j < |TRANSACTIONS.columns| ==> TRANSACTIONS.columns[i] != TRANSACTIONS.columns[j]
  {
  }

  lemma TransactionsLocks()
    ensures forall c :: c in TRANSACTIONS.locked ==> c in TRANSACTIONS.columns
  {
  }

  lemma TransactionsIsWellSpecified()
    ensures WellSpecified(TRANSACTIONS)
  {
    TransactionsStart();
    TransactionsMiddle();
    TransactionsEnd();
    TransactionsLocks();
  }

  lemma UserSettingsIsWellSpecified()
    ensures WellSpecified(USER_SETTINGS)
  {
  }

  lemma AllWellSpecified(
    a: TableSpec, b: TableSpec, c: TableSpec, d: TableSpec, e: TableSpec,
    f: TableSpec, g: TableSpec, h: TableSpec, i: TableSpec, j: TableSpec)
    requires WellSpecified(a) && WellSpecified(b) && WellSpecified(c) && WellSpecified(d) && WellSpecified(e)
    requires WellSpecified(f) && WellSpecified(g) && WellSpecified(h) && WellSpecified(i) && WellSpecified(j)
    ensures var specs := [a, b, c, d, e, f, g, h, i, j]; forall k :: 0 <= k < |specs| ==> WellSpecified(specs[k])
  {
  }

  lemma SpecsAreWellSpecified()
    ensures forall k :: 0 <= k < |SPECS| ==> WellSpecified(SPECS[k])
  {
    WalletIsWellSpecified();
    AccountIsWellSpecified();
    AddressIsWellSpecified();
    BitcoinAddressIsWellSpecified();
    ContactsIsWellSpecified();
    ExchangeRateIsWellSpecified();
    UsersIsWellSpecified();
    UserKeysIsWellSpecified();
    TransactionsIsWellSpecified();
    UserSettingsIsWellSpecified();
    AllWellSpecified(WALLET, ACCOUNT, ADDRESS, BITCOIN_ADDRESS, CONTACTS, EXCHANGE_RATE, USERS, USER_KEYS, TRANSACTIONS, USER_SETTINGS);
  }

  /** The columns rows are looked up by, and those constraints protect from being dropped. */
  lemma LookupColumnsAreBuilt()
    ensures "wallet_id" in WALLET.columns && WALLET.locked == {"id", "wallet_id"}
    ensures "account_id" in ACCOUNT.columns && ACCOUNT.locked == {"id", "wallet_id", "derivation_path"}
    ensures "server_id" in ADDRESS.columns && ADDRESS.locked == {"id"}
    ensures "key_id" in USER_KEYS.columns && USER_KEYS.locked == {"key_id", "user_id"}
  {
    var w, a, d, k := WALLET.columns, ACCOUNT.columns, ADDRESS.columns, USER_KEYS.columns;
    assert w[11] == "wallet_id" && w[11] in w;
    assert a[1] == "account_id" && a[1] in a;
    assert d[1] == "server_id" && d[1] in d;
    assert k[0] == "key_id" && k[0] in k;
  }

  /** From every stored version a well-formed database stays one: rows have exactly the columns of their table, and
      constraints and indexes are on columns that exist. */
  lemma BuildKeepsValid(db: Db, oldVersion: nat)
    requires db.Valid()
    ensures Build(db, Registered(), oldVersion).Valid()
  {
    BuildFromVersion(db, oldVersion);
    SpecsAreWellSpecified();
    CreateEachKeepsValid(db, SPECS);
    ResetPoolKeepsValid(db);
    ResetPoolKeepsValid(CreateEach(db, SPECS));
  }
}
