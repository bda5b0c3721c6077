/** Allocating an account path and inserting the account, over all runs on the account table. */
module AllocatorRuns {
  import opened Wrappers
  import opened SqlTables
  import opened Daos
  import opened DerivationPaths

  /** `get_all_by_wallet_id`. */
  function AccountsOf(rows: seq<Row<AccountModel>>, walletId: string): seq<AccountModel> {
    if rows == [] then []
    else (if rows[0].item.walletId == walletId then [rows[0].item] else []) + AccountsOf(rows[1..], walletId)
  }

  /** One (wallet, bip, coin) triple, whose indices are handed out independently. */
  datatype Series = Series(walletId: string, bip: nat, coin: nat)

  datatype Event =
    | Allocate(series: Series, accountId: string, details: AccountDetails)
    | Remove(p: Row<AccountModel> -> bool)

  /** Allocates the next path of a series and inserts an account under it. */
  function AllocateAndInsert(t: Table<AccountModel>, s: Series, accountId: string, details: AccountDetails)
    : Option<Result<Table<AccountModel>, DbError>>
  {
    match DerivationPaths.Allocate(AccountsOf(t.rows, s.walletId), s.bip, s.coin)
    case Err(_) => None
    case Ok(path) => Some(Insert(ACCOUNTS, t, AccountModel(0, accountId, s.walletId, path, details)))
  }

  function Step(t: Table<AccountModel>, e: Event): Table<AccountModel> {
    match e
    case Allocate(s, accountId, details) =>
      (match AllocateAndInsert(t, s, accountId, details)
       case Some(Ok(t')) => t'
       case _ => t)
    case Remove(p) => Delete(t, p)
  }

  function Run(t: Table<AccountModel>, es: seq<Event>): Table<AccountModel> {
    if es == [] then t else Step(Run(t, es[..|es| - 1]), es[|es| - 1])
  }

  /** Some account of the wallet holds the path. */
  ghost predicate Holds(rows: seq<Row<AccountModel>>, walletId: string, path: string) {
    exists k :: 0 <= k < |rows| && rows[k].item.walletId == walletId && rows[k].item.derivationPath == path
  }

  lemma HoldsCons(rows: seq<Row<AccountModel>>, walletId: string, path: string)
    requires rows != []
    ensures Holds(rows, walletId, path) <==>
            (rows[0].item.walletId == walletId && rows[0].item.derivationPath == path) || Holds(rows[1..], walletId, path)
  {
    var tail := rows[1..];
    assert forall k :: 0 <= k < |tail| ==> tail[k] == rows[k + 1];
    assert forall k :: 1 <= k < |rows| ==> rows[k] == tail[k - 1];
  }

  lemma ExistsCons(a: AccountModel, accounts: seq<AccountModel>, path: string)
    ensures Exists([a] + accounts, path) <==> a.derivationPath == path || Exists(accounts, path)
  {
    var all := [a] + accounts;
    assert all[0] == a && forall k :: 0 <= k < |accounts| ==> accounts[k] == all[k + 1];
  }

  lemma {:induction false} AccountsOfHold(rows: seq<Row<AccountModel>>, walletId: string, path: string)
    ensures Exists(AccountsOf(rows, walletId), path) <==> Holds(rows, walletId, path)
  {
    if rows != [] {
      AccountsOfHold(rows[1..], walletId, path);
      HoldsCons(rows, walletId, path);
      ExistsCons(rows[0].item, AccountsOf(rows[1..], walletId), path);
      assert [] + AccountsOf(rows[1..], walletId) == AccountsOf(rows[1..], walletId);
    }
  }

  /** The index is in use in the series, in either spelling. */
  ghost predicate InUse(t: Table<AccountModel>, s: Series, index: nat) {
    Taken(AccountsOf(t.rows, s.walletId), s.bip, s.coin, index)
  }

  lemma InUseHolds(t: Table<AccountModel>, s: Series, index: nat)
    ensures InUse(t, s, index) <==>
            Holds(t.rows, s.walletId, Path(s.bip, s.coin, index)) || Holds(t.rows, s.walletId, "m/" + Path(s.bip, s.coin, index))
  {
    AccountsOfHold(t.rows, s.walletId, Path(s.bip, s.coin, index));
    AccountsOfHold(t.rows, s.walletId, "m/" + Path(s.bip, s.coin, index));
  }

  /** From any table, inserting a path that was just allocated never trips UNIQUE(wallet_id, derivation_path). */
  lemma AllocatedInsertNeverClashes(t: Table<AccountModel>, s: Series, accountId: string, details: AccountDetails)
    ensures var r := AllocateAndInsert(t, s, accountId, details); r.Some? ==> r.value.Ok?
  {
    var accounts := AccountsOf(t.rows, s.walletId);
    var r := DerivationPaths.Allocate(accounts, s.bip, s.coin);
    if r.Ok? {
      var index := AllocateFromFindsFree(accounts, s.bip, s.coin, 0);
      AccountsOfHold(t.rows, s.walletId, r.value);
      assert !Clashes(ACCOUNTS, t, AccountModel(0, accountId, s.walletId, r.value, details), |t.rows|);
    }
  }

  lemma HoldsAfterInsert(rows: seq<Row<AccountModel>>, row: Row<AccountModel>, walletId: string, path: string)
    ensures Holds(rows + [row], walletId, path) <==>
            Holds(rows, walletId, path) || (row.item.walletId == walletId && row.item.derivationPath == path)
  {
    var all := rows + [row];
    if Holds(rows, walletId, path) {
      var k :| 0 <= k < |rows| && rows[k].item.walletId == walletId && rows[k].item.derivationPath == path;
      assert all[k] == rows[k];
    }
    assert all[|rows|] == row;
  }

  /** A successful allocation puts exactly one index in use, the least free one of its own series;
      no other series notices. */
  lemma AllocationUsesTheLeastFree(t: Table<AccountModel>, e: Event, other: Series, i: nat) returns (index: nat)
    requires e.Allocate? && AllocateAndInsert(t, e.series, e.accountId, e.details).Some?
    ensures index <= MAX_ACCOUNTS && !InUse(t, e.series, index)
    ensures forall j: nat :: j < index ==> InUse(t, e.series, j)
    ensures InUse(Step(t, e), other, i) <==> InUse(t, other, i) || (other == e.series && i == index)
  {
    var s := e.series;
    AllocatedInsertNeverClashes(t, s, e.accountId, e.details);
    index := AllocateFromFindsFree(AccountsOf(t.rows, s.walletId), s.bip, s.coin, 0);
    var path := Path(s.bip, s.coin, index);
    var row := Row(t.lastId + 1, AccountModel(0, e.accountId, s.walletId, path, e.details));
    assert Step(t, e).rows == t.rows + [row];
    InUseHolds(t, other, i);
    InUseHolds(Step(t, e), other, i);
    var p := Path(other.bip, other.coin, i);
    HoldsAfterInsert(t.rows, row, other.walletId, p);
    HoldsAfterInsert(t.rows, row, other.walletId, "m/" + p);
    PathIsInjective(other.bip, other.coin, i, s.bip, s.coin, index);
    RootedPathsDiffer(s.bip, s.coin, index, other.bip, other.coin, i);
  }

  /** The removal takes no account whose path belongs to the series. */
  ghost predicate Spares(p: Row<AccountModel> -> bool, s: Series) {
    forall row: Row<AccountModel>, i: nat :: row.item.walletId == s.walletId && Taken([row.item], s.bip, s.coin, i) ==> !p(row)
  }

  lemma RemoveSparesIndices(t: Table<AccountModel>, p: Row<AccountModel> -> bool, s: Series, i: nat)
    requires Spares(p, s)
    ensures InUse(Delete(t, p), s, i) <==> InUse(t, s, i)
  {
    InUseHolds(t, s, i);
    InUseHolds(Delete(t, p), s, i);
    RemoveSparesPath(t, p, s, i, Path(s.bip, s.coin, i));
    RemoveSparesPath(t, p, s, i, "m/" + Path(s.bip, s.coin, i));
  }

  lemma RemoveSparesPath(t: Table<AccountModel>, p: Row<AccountModel> -> bool, s: Series, i: nat, path: string)
    requires Spares(p, s) && (path == Path(s.bip, s.coin, i) || path == "m/" + Path(s.bip, s.coin, i))
    ensures Holds(Delete(t, p).rows, s.walletId, path) <==> Holds(t.rows, s.walletId, path)
  {
    RejectMembers(t.rows, p);
    var kept := Reject(t.rows, p);
    if Holds(t.rows, s.walletId, path) {
      var k :| 0 <= k < |t.rows| && t.rows[k].item.walletId == s.walletId && t.rows[k].item.derivationPath == path;
      assert [t.rows[k].item][0].derivationPath == path;
      assert Taken([t.rows[k].item], s.bip, s.coin, i);
      assert t.rows[k] in t.rows && !p(t.rows[k]);
      assert t.rows[k] in kept;
      var n :| 0 <= n < |kept| && kept[n] == t.rows[k];
    }
    if Holds(kept, s.walletId, path) {
      var k :| 0 <= k < |kept| && kept[k].item.walletId == s.walletId && kept[k].item.derivationPath == path;
      var n := RejectIndex(t.rows, p, k);
    }
  }

  /** How often the run allocates in the series. */
  function Allocations(es: seq<Event>, s: Series): nat {
    if es == [] then 0
    else
      var last := es[|es| - 1];
      Allocations(es[..|es| - 1], s) + (if last.Allocate? && last.series == s then 1 else 0)
  }

  /** From an empty table, in any interleaving with allocations in other series, on other wallets, and
      with removals that spare the series, `n` allocations use exactly the indices 0 to `n - 1`. */
  lemma {:induction false} AllocationsAreConsecutive(es: seq<Event>, s: Series, i: nat)
    requires Allocations(es, s) <= MAX_ACCOUNTS + 1
    requires forall e :: e in es && e.Remove? ==> Spares(e.p, s)
    ensures InUse(Run(SqlTables.Empty(), es), s, i) <==> i < Allocations(es, s)
  {
    if es == [] {
      InUseHolds(SqlTables.Empty(), s, i);
    } else {
      var init, last := es[..|es| - 1], es[|es| - 1];
      var t := Run(SqlTables.Empty(), init);
      var n := Allocations(init, s);
      forall j: nat ensures InUse(t, s, j) <==> j < n {
        AllocationsAreConsecutive(init, s, j);
      }
      match last
      case Remove(p) =>
        assert last in es;
        RemoveSparesIndices(t, p, s, i);
      case Allocate(_, _, _) => AllocationExtends(t, last, s, n, i);
    }
  }

  lemma AllocationExtends(t: Table<AccountModel>, e: Event, s: Series, n: nat, i: nat)
    requires e.Allocate? && (e.series == s ==> n <= MAX_ACCOUNTS)
    requires forall j: nat :: InUse(t, s, j) <==> j < n
    ensures InUse(Step(t, e), s, i) <==> i < (if e.series == s then n + 1 else n)
  {
    if e.series == s {
      assert !InUse(t, s, n);
      forall j: nat | j < n ensures Taken(AccountsOf(t.rows, s.walletId), s.bip, s.coin, j) {
        assert InUse(t, s, j);
      }
      AllocateIsLeast(AccountsOf(t.rows, s.walletId), s.bip, s.coin, n);
    }
    if AllocateAndInsert(t, e.series, e.accountId, e.details).Some? {
      var index := AllocationUsesTheLeastFree(t, e, s, i);
      assert e.series == s ==> !InUse(t, s, n) && (InUse(t, s, index) <==> index < n);
    }
  }

  /** Allocation and insertion are two calls.  Whatever has happened to the table in between, the insert is
      refused if and only if some account of the wallet holds the path by then. */
  lemma LateInsertRefusedIff(t': Table<AccountModel>, walletId: string, path: string, accountId: string, details: AccountDetails)
    ensures var r := Insert(ACCOUNTS, t', AccountModel(0, accountId, walletId, path, details));
            && (r == Err(UniqueViolation) <==> Holds(t'.rows, walletId, path))
            && (r.Ok? <==> !Holds(t'.rows, walletId, path))
  {
    var item := AccountModel(0, accountId, walletId, path, details);
    if Holds(t'.rows, walletId, path) {
      var k :| 0 <= k < |t'.rows| && t'.rows[k].item.walletId == walletId && t'.rows[k].item.derivationPath == path;
      assert ACCOUNTS.clash(t'.rows[k].item, item);
    } else {
      assert forall k :: 0 <= k < |t'.rows| ==> !ACCOUNTS.clash(t'.rows[k].item, item);
    }
  }

  /** The constraint does not know the other spelling: if only `m/` and the path was inserted in between, the
      insert is accepted and two accounts of the wallet then hold one index. */
  lemma OtherSpellingTakesIndexTwice(t': Table<AccountModel>, s: Series, index: nat, accountId: string, details: AccountDetails)
    requires var path := Path(s.bip, s.coin, index);
             Holds(t'.rows, s.walletId, "m/" + path) && !Holds(t'.rows, s.walletId, path)
    ensures var path := Path(s.bip, s.coin, index);
            var r := Insert(ACCOUNTS, t', AccountModel(0, accountId, s.walletId, path, details));
            && InUse(t', s, index) && r.Ok?
            && Holds(r.value.rows, s.walletId, "m/" + path) && Holds(r.value.rows, s.walletId, path)
  {
    var path := Path(s.bip, s.coin, index);
    InUseHolds(t', s, index);
    LateInsertRefusedIff(t', s.walletId, path, accountId, details);
    var row := Row(t'.lastId + 1, AccountModel(0, accountId, s.walletId, path, details));
    HoldsAfterInsert(t'.rows, row, s.walletId, path);
    HoldsAfterInsert(t'.rows, row, s.walletId, "m/" + path);
  }

  /** Two callers who allocate before either inserts get the same path, and the second insert is refused. */
  lemma RacingAllocationsCollide(t: Table<AccountModel>, s: Series, id1: string, id2: string, details: AccountDetails)
    ensures match DerivationPaths.Allocate(AccountsOf(t.rows, s.walletId), s.bip, s.coin)
            case Err(_) => true
            case Ok(path) =>
              var t1 := Insert(ACCOUNTS, t, AccountModel(0, id1, s.walletId, path, details));
              t1.Ok? && Insert(ACCOUNTS, t1.value, AccountModel(0, id2, s.walletId, path, details)) == Err(UniqueViolation)
  {
    AllocatedInsertNeverClashes(t, s, id1, details);
    match DerivationPaths.Allocate(AccountsOf(t.rows, s.walletId), s.bip, s.coin)
    case Err(_) =>
    case Ok(path) =>
      var row := Row(t.lastId + 1, AccountModel(0, id1, s.walletId, path, details));
      var t1 := Insert(ACCOUNTS, t, row.item).value;
      HoldsAfterInsert(t.rows, row, s.walletId, path);
      LateInsertRefusedIff(t1, s.walletId, path, id2, details);
  }
}
