/** Index names carry the column but not the table, so all tables compete for them.  Which table an
    index ends up on, for any state before the upgrade. */
module IndexOwnership {
  import opened Wrappers
  import opened Schemas
  import opened AppDatabases
  import opened MigrationEffects

  type Indexes = map<string, Index>

  function Entry(indexes: Indexes, i: string): Option<Index> {
    if i in indexes then Some(indexes[i]) else None
  }

  /** The table asks for an index of this name, on the column the name carries. */
  predicate Asks(spec: TableSpec, i: string) {
    IsIndexName(i) && i[4..] in spec.indexed
  }

  /** The first table from position `from` on, below `n`, that asks for the name. */
  function FirstAsker(specs: seq<TableSpec>, from: nat, n: nat, i: string): Option<Index>
    requires n <= |specs|
  {
    if n <= from then None
    else
      var earlier := FirstAsker(specs, from, n - 1, i);
      if earlier.Some? then earlier
      else if Asks(specs[n - 1], i) then Some(Index(specs[n - 1].name, i[4..]))
      else None
  }

  /** One table is dropped and recreated: its indexes are free for a moment, and it takes those it
      asks for that are free. */
  lemma ReIndexEntry(indexes: Indexes, spec: TableSpec, i: string)
    ensures Entry(ReIndex(indexes, spec), i) ==
            var left := if i in indexes && indexes[i].table != spec.name then Some(indexes[i]) else None;
            if left.Some? then left
            else if Asks(spec, i) then Some(Index(spec.name, i[4..]))
            else None
  {
    AddedNames(Purge(indexes, spec.name), spec.name, spec.indexed, i);
  }

  lemma {:induction false} FirstAskerIsInRange(specs: seq<TableSpec>, from: nat, n: nat, i: string)
    requires n <= |specs| && Consistent(specs) && FirstAsker(specs, from, n, i).Some?
    ensures exists k :: from <= k < n && Asks(specs[k], i) && FirstAsker(specs, from, n, i).value == Index(specs[k].name, i[4..])
                        && forall j :: from <= j < k ==> !Asks(specs[j], i)
  {
    if FirstAsker(specs, from, n - 1, i).Some? {
      FirstAskerIsInRange(specs, from, n - 1, i);
    } else {
      NoAskerBefore(specs, from, n - 1, i);
    }
  }

  lemma {:induction false} NoAskerBefore(specs: seq<TableSpec>, from: nat, n: nat, i: string)
    requires n <= |specs|
    ensures FirstAsker(specs, from, n, i) == None <==> forall j :: from <= j < n ==> !Asks(specs[j], i)
  {
    if n > from {
      NoAskerBefore(specs, from, n - 1, i);
    }
  }

  /** An index that no listed table owned stays where it is, if it exists. */
  lemma {:induction false} ForeignIndexStays(indexes: Indexes, specs: seq<TableSpec>, n: nat, i: string)
    requires n <= |specs| && i in indexes && forall k :: 0 <= k < |specs| ==> specs[k].name != indexes[i].table
    ensures Entry(ReIndexEach(indexes, specs, n), i) == Some(indexes[i])
  {
    if n > 0 {
      ForeignIndexStays(indexes, specs, n - 1, i);
      ReIndexEntry(ReIndexEach(indexes, specs, n - 1), specs[n - 1], i);
    }
  }

  /** A free name goes to the first table that asks for it. */
  lemma {:induction false} FreeNameGoesToFirstAsker(indexes: Indexes, specs: seq<TableSpec>, n: nat, i: string)
    requires Consistent(specs) && n <= |specs| && i !in indexes
    ensures Entry(ReIndexEach(indexes, specs, n), i) == FirstAsker(specs, 0, n, i)
  {
    if n > 0 {
      FreeNameGoesToFirstAsker(indexes, specs, n - 1, i);
      ReIndexEntry(ReIndexEach(indexes, specs, n - 1), specs[n - 1], i);
      if FirstAsker(specs, 0, n - 1, i).Some? {
        FirstAskerIsInRange(specs, 0, n - 1, i);
      }
    }
  }

  /** A name owned by the table at position `p` becomes free when that table is dropped, and then goes
      to the first table from `p` on that asks for it. */
  lemma {:induction false} OwnedNameIsFreedInTurn(indexes: Indexes, specs: seq<TableSpec>, n: nat, i: string, p: nat)
    requires Consistent(specs) && n <= |specs| && p < |specs| && i in indexes && indexes[i].table == specs[p].name
    ensures Entry(ReIndexEach(indexes, specs, n), i) == if n <= p then Some(indexes[i]) else FirstAsker(specs, p, n, i)
  {
    if n > 0 {
      OwnedNameIsFreedInTurn(indexes, specs, n - 1, i, p);
      ReIndexEntry(ReIndexEach(indexes, specs, n - 1), specs[n - 1], i);
      if n - 1 > p && FirstAsker(specs, p, n - 1, i).Some? {
        FirstAskerIsInRange(specs, p, n - 1, i);
      }
    }
  }

  /** Where an index is after the run, in terms of where it was before. */
  function EntryAfter(indexes: Indexes, specs: seq<TableSpec>, i: string): Option<Index> {
    if i !in indexes then FirstAsker(specs, 0, |specs|, i)
    else
      var p := PositionOfTable(specs, indexes[i].table);
      if p == |specs| then Some(indexes[i]) else FirstAsker(specs, p, |specs|, i)
  }

  function PositionOfTable(specs: seq<TableSpec>, t: string): (p: nat)
    ensures p <= |specs|
    ensures p < |specs| ==> specs[p].name == t
    ensures forall k :: 0 <= k < p ==> specs[k].name != t
  {
    if specs == [] || specs[0].name == t then 0
    else
      var p := PositionOfTable(specs[1..], t);
      assert forall k :: 1 <= k < p + 1 ==> specs[k] == specs[1..][k - 1];
      p + 1
  }

  lemma RunDecidesEntries(indexes: Indexes, specs: seq<TableSpec>, i: string)
    requires Consistent(specs)
    ensures Entry(ReIndexEach(indexes, specs, |specs|), i) == EntryAfter(indexes, specs, i)
  {
    if i !in indexes {
      FreeNameGoesToFirstAsker(indexes, specs, |specs|, i);
    } else {
      var p := PositionOfTable(specs, indexes[i].table);
      if p == |specs| {
        ForeignIndexStays(indexes, specs, |specs|, i);
      } else {
        OwnedNameIsFreedInTurn(indexes, specs, |specs|, i, p);
      }
    }
  }

  predicate Unlisted(specs: seq<TableSpec>, t: string) {
    forall k :: 0 <= k < |specs| ==> specs[k].name != t
  }

  /** The name ends up free: every table that asks for it comes before the listed table that owned it. */
  predicate NobodyTakes(indexes: Indexes, specs: seq<TableSpec>, i: string) {
    && (i in indexes ==> !Unlisted(specs, indexes[i].table))
    && forall k :: 0 <= k < |specs| && Asks(specs[k], i) ==> i in indexes && k < PositionOfTable(specs, indexes[i].table)
  }

  /** What `Build` does to indexes, in terms of the tables with the indexes each of them gets to ask for. */
  lemma UpgradeDecidesEntries(db: Db, i: string)
    ensures Consistent(Effective(db, SPECS))
    ensures Entry(Build(db, Registered(), 1).indexes, i) == EntryAfter(db.indexes, Effective(db, SPECS), i)
  {
    SpecsAreConsistent();
    EffectiveIsConsistent(db, SPECS);
    FullBuildEffect(db);
    RunDecidesEntries(db.indexes, Effective(db, SPECS), i);
  }

  /** After the upgrade every index belongs to a table that asks for it, on the column its name carries, or
      to a table outside the list that owned it before; and exactly which asked-for names nobody holds. */
  lemma OwnersAfterUpgrade(db: Db, i: string)
    ensures var after, specs := Entry(Build(db, Registered(), 1).indexes, i), Effective(db, SPECS);
            && (after == None <==> NobodyTakes(db.indexes, specs, i))
            && (after.Some? ==>
                  || (exists k :: 0 <= k < |specs| && Asks(specs[k], i) && after.value == Index(specs[k].name, i[4..]))
                  || (i in db.indexes && after.value == db.indexes[i] && Unlisted(specs, db.indexes[i].table)))
  {
    UpgradeDecidesEntries(db, i);
    OwnersAfterRun(db.indexes, Effective(db, SPECS), i);
  }

  lemma OwnersAfterRun(indexes: Indexes, specs: seq<TableSpec>, i: string)
    requires Consistent(specs)
    ensures var after := EntryAfter(indexes, specs, i);
            && (after == None <==> NobodyTakes(indexes, specs, i))
            && (after.Some? ==>
                  || (exists k :: 0 <= k < |specs| && Asks(specs[k], i) && after.value == Index(specs[k].name, i[4..]))
                  || (i in indexes && after.value == indexes[i] && Unlisted(specs, indexes[i].table)))
  {
    var p := if i in indexes then PositionOfTable(specs, indexes[i].table) else 0;
    NoAskerBefore(specs, p, |specs|, i);
    if FirstAsker(specs, p, |specs|, i).Some? {
      FirstAskerIsInRange(specs, p, |specs|, i);
    }
  }

  lemma FirstAskerFromAsker(specs: seq<TableSpec>, p: nat, n: nat, i: string)
    requires Consistent(specs) && p < n <= |specs| && Asks(specs[p], i)
    ensures FirstAsker(specs, p, n, i) == Some(Index(specs[p].name, i[4..]))
  {
    if n > p + 1 {
      FirstAskerFromAsker(specs, p, n - 1, i);
    }
  }

  /** An owner that itself asks for the index is the owner after the upgrade too. */
  lemma AskingOwnerKeepsIndex(db: Db, k: nat, i: string)
    requires k < |SPECS| && Asks(Effective(db, SPECS)[k], i)
    requires i in db.indexes && db.indexes[i].table == SPECS[k].name
    ensures Entry(Build(db, Registered(), 1).indexes, i) == Some(Index(SPECS[k].name, i[4..]))
  {
    var specs := Effective(db, SPECS);
    UpgradeDecidesEntries(db, i);
    assert specs[k].name == SPECS[k].name;
    assert PositionOfTable(specs, specs[k].name) == k;
    FirstAskerFromAsker(specs, k, |specs|, i);
  }

  ghost predicate FirstToAskFor(specs: seq<TableSpec>, k: nat, column: string)
    requires k < |specs|
  {
    column in specs[k].indexed && forall j :: 0 <= j < k ==> column !in specs[j].indexed
  }

  /** A name that no table owned before the upgrade goes to the first table that asks for its column. */
  lemma FreeColumnGoesToFirstTable(db: Db, k: nat, column: string)
    requires IndexName(column) !in db.indexes
    requires k < |SPECS| && FirstToAskFor(Effective(db, SPECS), k, column)
    ensures Entry(Build(db, Registered(), 1).indexes, IndexName(column)) == Some(Index(SPECS[k].name, column))
  {
    var specs := Effective(db, SPECS);
    UpgradeDecidesEntries(db, IndexName(column));
    IndexNameIsOne(column);
    assert forall j :: 0 <= j < |specs| ==> (Asks(specs[j], IndexName(column)) <==> column in specs[j].indexed);
    FirstAskerFromFirst(specs, 0, k, |specs|, IndexName(column));
  }

  /** With every name free, `wallet_id` and `server_id` each serve the first of the tables that ask for
      them, so accounts and three other tables do without; the other columns have one table each. */
  lemma OwnersOfFreeNames()
    ensures SPECS[0] == WALLET && FirstToAskFor(SPECS, 0, "wallet_id")
    ensures SPECS[1] == ACCOUNT && FirstToAskFor(SPECS, 1, "account_id") && "wallet_id" in ACCOUNT.indexed
    ensures SPECS[2] == ADDRESS && FirstToAskFor(SPECS, 2, "server_id")
    ensures "server_id" in BITCOIN_ADDRESS.indexed && "server_id" in EXCHANGE_RATE.indexed && "server_id" in TRANSACTIONS.indexed
    ensures SPECS[4] == CONTACTS && FirstToAskFor(SPECS, 4, "server_contact_id")
    ensures SPECS[6] == USERS && FirstToAskFor(SPECS, 6, "user_id")
    ensures SPECS[7] == USER_KEYS && FirstToAskFor(SPECS, 7, "key_id")
  {
    assert "wallet_id"[0] == 'w' && "account_id"[0] == 'a' && "server_contact_id"[7] == 'c' && "server_id"[7] == 'i';
  }

  // ----- running the upgrade twice

  /** No listed table owns an index that is asked for only by tables visited before it. */
  ghost predicate Settled(indexes: Indexes, specs: seq<TableSpec>) {
    forall i :: i in indexes && PositionOfTable(specs, indexes[i].table) < |specs| ==>
      (FirstAsker(specs, PositionOfTable(specs, indexes[i].table), |specs|, i) == None ==>
       FirstAsker(specs, 0, |specs|, i) == None)
  }

  lemma SecondRunOnEntry(indexes: Indexes, specs: seq<TableSpec>, i: string)
    requires Consistent(specs)
    ensures var once := ReIndexEach(indexes, specs, |specs|);
            Entry(ReIndexEach(once, specs, |specs|), i) ==
            if Entry(once, i) == None then FirstAsker(specs, 0, |specs|, i) else Entry(once, i)
  {
    var once := ReIndexEach(indexes, specs, |specs|);
    RunDecidesEntries(indexes, specs, i);
    RunDecidesEntries(once, specs, i);
    if i in once {
      var p := PositionOfTable(specs, once[i].table);
      if p < |specs| {
        var from := if i in indexes then PositionOfTable(specs, indexes[i].table) else 0;
        FirstAskerIsInRange(specs, from, |specs|, i);
        var k :| from <= k < |specs| && specs[k].name == once[i].table && Asks(specs[k], i)
                 && forall j :: from <= j < k ==> !Asks(specs[j], i);
        assert k == p;
        FirstAskerFromAsker(specs, k, |specs|, i);
        FirstAskerFromFirst(specs, from, k, |specs|, i);
      }
    }
  }

  lemma {:induction false} FirstAskerFromFirst(specs: seq<TableSpec>, from: nat, k: nat, n: nat, i: string)
    requires from <= k < n <= |specs| && Asks(specs[k], i) && forall j :: from <= j < k ==> !Asks(specs[j], i)
    ensures FirstAsker(specs, from, n, i) == Some(Index(specs[k].name, i[4..]))
  {
    if n > k + 1 {
      FirstAskerFromFirst(specs, from, k, n - 1, i);
    } else {
      NoAskerBefore(specs, from, n - 1, i);
    }
  }

  /** A second run changes no index exactly when the state before the first was settled. */
  lemma SecondRunChangesNothingIffSettled(indexes: Indexes, specs: seq<TableSpec>)
    requires Consistent(specs)
    ensures var once := ReIndexEach(indexes, specs, |specs|);
            ReIndexEach(once, specs, |specs|) == once <==> Settled(indexes, specs)
  {
    var once := ReIndexEach(indexes, specs, |specs|);
    var twice := ReIndexEach(once, specs, |specs|);
    if Settled(indexes, specs) {
      forall i ensures Entry(twice, i) == Entry(once, i) {
        SecondRunOnEntry(indexes, specs, i);
        RunDecidesEntries(indexes, specs, i);
      }
      SameEntriesSameMap(twice, once);
    } else {
      var i :| i in indexes && PositionOfTable(specs, indexes[i].table) < |specs|
               && FirstAsker(specs, PositionOfTable(specs, indexes[i].table), |specs|, i) == None
               && FirstAsker(specs, 0, |specs|, i) != None;
      SecondRunOnEntry(indexes, specs, i);
      RunDecidesEntries(indexes, specs, i);
      assert Entry(twice, i) != Entry(once, i);
    }
  }

  lemma SameEntriesSameMap(a: Indexes, b: Indexes)
    requires forall i :: Entry(a, i) == Entry(b, i)
    ensures a == b
  {
    forall i ensures i in a <==> i in b {
      assert Entry(a, i) == Entry(b, i);
    }
    forall i | i in a ensures a[i] == b[i] {
      assert Entry(a, i) == Entry(b, i);
    }
  }

  /** No table of the list is blocked by an index that a later table of the list owns, and the indexes are
      settled for what the tables get to ask for. */
  ghost predicate SettledDatabase(db: Db) {
    && (forall k :: 0 <= k < |SPECS| && Blocked(db, SPECS, k) ==> Unlisted(SPECS, db.indexes[SPECS[k].name].table))
    && Settled(db.indexes, Effective(db, SPECS))
  }

  /** Upgrading twice is upgrading once exactly for settled databases; one that this upgrade itself has
      produced always is. */
  lemma UpgradeIsIdempotentIffSettled(db: Db)
    ensures var once := Build(db, Registered(), 1);
            && (Build(once, Registered(), 1) == once <==> SettledDatabase(db))
            && SettledDatabase(once)
  {
    var once := Build(db, Registered(), 1);
    SpecsAreConsistent();
    FullBuildEffect(db);
    FullBuildEffect(once);
    BlockedAgain(db, once);
    if forall k :: 0 <= k < |SPECS| && Blocked(db, SPECS, k) ==> Unlisted(SPECS, db.indexes[SPECS[k].name].table) {
      SecondBuild(db);
    } else {
      var k :| 0 <= k < |SPECS| && Blocked(db, SPECS, k) && !Unlisted(SPECS, db.indexes[SPECS[k].name].table);
      assert !Blocked(once, SPECS, k);
      assert SPECS[k].name !in once.tables && SPECS[k].name in Build(once, Registered(), 1).tables;
    }
    StaysSettled(db);
  }

  lemma ListedIffNotUnlisted(specs: seq<TableSpec>, t: string)
    ensures Listed(specs, |specs|, t) <==> !Unlisted(specs, t)
  {
  }

  /** After the upgrade a table is blocked exactly by an index of a table outside the list. */
  lemma BlockedAgain(db: Db, once: Db)
    requires Consistent(SPECS) && OtherNames(db, once, SPECS, |SPECS|)
    ensures forall k :: 0 <= k < |SPECS| ==>
              (Blocked(once, SPECS, k) <==> Blocked(db, SPECS, k) && Unlisted(SPECS, db.indexes[SPECS[k].name].table))
    ensures forall k :: 0 <= k < |SPECS| && Blocked(once, SPECS, k) ==> Unlisted(SPECS, once.indexes[SPECS[k].name].table)
  {
    forall k | 0 <= k < |SPECS|
      ensures Blocked(once, SPECS, k) <==> Blocked(db, SPECS, k) && Unlisted(SPECS, db.indexes[SPECS[k].name].table)
      ensures Blocked(once, SPECS, k) ==> Unlisted(SPECS, once.indexes[SPECS[k].name].table)
    {
      assert !IsIndexName(SPECS[k].name);
      if SPECS[k].name in db.indexes {
        ListedIffNotUnlisted(SPECS, db.indexes[SPECS[k].name].table);
      }
    }
  }

  lemma SameReach(db: Db, once: Db)
    requires Consistent(SPECS) && Rebuilt(db, once, SPECS)
    ensures forall k :: 0 <= k < |SPECS| ==>
              Reachable(once.tables.Keys, SPECS[k].indexed) == Reachable(db.tables.Keys, SPECS[k].indexed)
  {
    forall i | IsIndexName(i) ensures i in once.tables <==> i in db.tables {
      assert !Listed(SPECS, |SPECS|, i);
    }
    forall k | 0 <= k < |SPECS|
      ensures Reachable(once.tables.Keys, SPECS[k].indexed) == Reachable(db.tables.Keys, SPECS[k].indexed)
    {
      ReachableDependsOn(once.tables.Keys, db.tables.Keys, SPECS[k].indexed);
    }
  }

  lemma SecondBuild(db: Db)
    requires forall k :: 0 <= k < |SPECS| && Blocked(db, SPECS, k) ==> Unlisted(SPECS, db.indexes[SPECS[k].name].table)
    ensures var once := Build(db, Registered(), 1);
            Build(once, Registered(), 1) == once <==> Settled(db.indexes, Effective(db, SPECS))
  {
    var once := Build(db, Registered(), 1);
    var twice := Build(once, Registered(), 1);
    SpecsAreConsistent();
    EffectiveIsConsistent(db, SPECS);
    FullBuildEffect(db);
    FullBuildEffect(once);
    BlockedAgain(db, once);
    SameReach(db, once);
    assert Effective(once, SPECS) == Effective(db, SPECS);
    SecondRunChangesNothingIffSettled(db.indexes, Effective(db, SPECS));
    SameTables(db, once, twice, SPECS);
  }

  lemma StaysSettled(db: Db)
    ensures SettledDatabase(Build(db, Registered(), 1))
  {
    var once := Build(db, Registered(), 1);
    var specs, specs' := Effective(db, SPECS), Effective(once, SPECS);
    SpecsAreConsistent();
    EffectiveIsConsistent(db, SPECS);
    EffectiveIsConsistent(once, SPECS);
    FullBuildEffect(db);
    BlockedAgain(db, once);
    SameReach(db, once);
    forall k, i | 0 <= k < |specs| && Asks(specs[k], i) ensures Asks(specs'[k], i) {
    }
    RunSettles(db.indexes, specs, specs');
  }

  lemma SameTables(db: Db, once: Db, twice: Db, specs: seq<TableSpec>)
    requires Rebuilt(db, once, specs) && Rebuilt(once, twice, specs)
    requires forall k :: 0 <= k < |specs| ==> (Blocked(once, specs, k) <==> Blocked(db, specs, k))
    ensures twice.tables == once.tables
  {
    forall t ensures t in twice.tables <==> t in once.tables {
      if Listed(specs, |specs|, t) {
        var k :| 0 <= k < |specs| && specs[k].name == t;
      }
    }
    forall t | t in once.tables ensures twice.tables[t] == once.tables[t] {
      if Listed(specs, |specs|, t) {
        var k :| 0 <= k < |specs| && specs[k].name == t;
      }
    }
  }

  /** A run settles the indexes, also for tables that ask for more than they did in the run. */
  lemma RunSettles(indexes: Indexes, specs: seq<TableSpec>, specs': seq<TableSpec>)
    requires Consistent(specs) && Consistent(specs') && |specs| == |specs'|
    requires forall k :: 0 <= k < |specs| ==> specs'[k].name == specs[k].name
    requires forall k, i :: 0 <= k < |specs| && Asks(specs[k], i) ==> Asks(specs'[k], i)
    ensures Settled(ReIndexEach(indexes, specs, |specs|), specs')
  {
    var once := ReIndexEach(indexes, specs, |specs|);
    forall i | i in once && PositionOfTable(specs', once[i].table) < |specs|
      ensures FirstAsker(specs', PositionOfTable(specs', once[i].table), |specs|, i) != None
    {
      var p := PositionOfTable(specs', once[i].table);
      OwnerAsks(indexes, specs, p, i);
      NoAskerBefore(specs', p, |specs|, i);
      assert Asks(specs'[p], i);
    }
  }

  lemma OwnerAsks(indexes: Indexes, specs: seq<TableSpec>, p: nat, i: string)
    requires Consistent(specs) && p < |specs|
    requires var once := ReIndexEach(indexes, specs, |specs|); i in once && once[i].table == specs[p].name
    ensures Asks(specs[p], i)
  {
    RunDecidesEntries(indexes, specs, i);
    OwnersAfterRun(indexes, specs, i);
  }

  // ----- a database that is not settled

  /** The settings table owns an index that only `users_table` asks for, and users come first. */
  function Misplaced(): Db {
    Db(map["wallet_user_settings_table" := FreshTable(USER_SETTINGS)],
       map["idx_user_id" := Index("wallet_user_settings_table", "user_id")])
  }

  lemma MisplacedIsValid()
    ensures Misplaced().Valid()
  {
  }

  lemma MisplacedHasNoClash()
    ensures NoNameClash(Misplaced(), SPECS)
  {
    SpecsAreConsistent();
    assert IsIndexName("idx_user_id") && !IsIndexName("wallet_user_settings_table");
    forall k, c | 0 <= k < |SPECS| && c in SPECS[k].indexed ensures IndexName(c) !in Misplaced().tables {
      IndexNameIsOne(c);
    }
  }

  lemma MisplacedOwners()
    ensures Misplaced().Valid() && NoNameClash(Misplaced(), SPECS)
    ensures SPECS[9] == USER_SETTINGS && "user_id" !in USER_SETTINGS.indexed && "idx_user_id"[4..] == "user_id"
  {
    MisplacedIsValid();
    MisplacedHasNoClash();
  }

  /** Without clashing names the second build finds nothing in its way either. */
  lemma StillNothingInTheWay(db: Db)
    requires NoNameClash(db, SPECS)
    ensures Effective(db, SPECS) == SPECS && Effective(Build(db, Registered(), 1), SPECS) == SPECS
  {
    var once := Build(db, Registered(), 1);
    SpecsAreConsistent();
    NothingInTheWay(db, SPECS);
    FullBuildEffect(db);
    BlockedAgain(db, once);
    SameReach(db, once);
    assert Effective(once, SPECS) == Effective(db, SPECS);
  }

  lemma FirstBuildFreesTheIndex()
    ensures Entry(Build(Misplaced(), Registered(), 1).indexes, "idx_user_id") == None
  {
    MisplacedOwners();
    StillNothingInTheWay(Misplaced());
    UpgradeDecidesEntries(Misplaced(), "idx_user_id");
    NoAskerBefore(SPECS, 9, 10, "idx_user_id");
    assert PositionOfTable(SPECS, "wallet_user_settings_table") == 9;
  }

  /** The first build leaves the users without the index, because the settings table gives it up last; the
      second build gives it to them. */
  lemma SecondBuildMovesTheIndex()
    ensures var once := Build(Misplaced(), Registered(), 1);
            && Entry(once.indexes, "idx_user_id") == None
            && Entry(Build(once, Registered(), 1).indexes, "idx_user_id") == Some(Index("users_table", "user_id"))
    ensures !SettledDatabase(Misplaced())
  {
    FirstBuildFreesTheIndex();
    UsersTakeTheIndex();
    UpgradeIsIdempotentIffSettled(Misplaced());
  }

  lemma UsersTakeTheIndex()
    ensures Entry(Build(Build(Misplaced(), Registered(), 1), Registered(), 1).indexes, "idx_user_id") == Some(Index("users_table", "user_id"))
  {
    var once := Build(Misplaced(), Registered(), 1);
    MisplacedOwners();
    StillNothingInTheWay(Misplaced());
    FirstBuildFreesTheIndex();
    OwnersOfFreeNames();
    UserIndexName();
    FreeColumnGoesToFirstTable(once, 6, "user_id");
  }

  lemma UserIndexName()
    ensures IndexName("user_id") == "idx_user_id" && SPECS[6].name == "users_table"
  {
  }
}
