/** The three DAOs that share the upsert scheme: accounts, wallets and addresses. */
module Daos {
  import opened Wrappers
  import opened SqlTables

  datatype AccountModel = AccountModel(
    id: nat, accountId: string, walletId: string, derivationPath: string, details: AccountDetails)

  datatype AccountDetails = AccountDetails(
    label_: string, scriptType: nat, createTime: nat, modifyTime: nat,
    fiatCurrency: string, priority: nat, lastUsedIndex: nat, poolSize: nat)

  datatype AddressModel = AddressModel(
    id: nat, serverId: string, email: string, serverWalletId: string, serverAccountId: string)

  datatype WalletModel = WalletModel(
    id: nat, walletId: string, name: string, userId: string, priority: nat, legacy: Option<nat>, details: WalletDetails)

  datatype WalletDetails = WalletDetails(
    passphrase: nat, publicKey: string, imported: nat, status: nat, type_: nat, createTime: nat, modifyTime: nat,
    accountCount: nat, fingerprint: Option<string>, showWalletRecovery: nat, migrationRequired: nat)

  /** UNIQUE (wallet_id, derivation_path); rows are looked up by account_id. */
  const ACCOUNTS: Schema<AccountModel> :=
    Schema((a: AccountModel) => a.accountId,
           (a: AccountModel, b: AccountModel) => a.walletId == b.walletId && a.derivationPath == b.derivationPath)

  /** UNIQUE (wallet_id), the very column rows are looked up by. */
  const WALLETS: Schema<WalletModel> :=
    Schema((w: WalletModel) => w.walletId, (a: WalletModel, b: WalletModel) => a.walletId == b.walletId)

  /** No UNIQUE constraint at all. */
  const ADDRESSES: Schema<AddressModel> :=
    Schema((a: AddressModel) => a.serverId, (a: AddressModel, b: AddressModel) => false)

  class Dao<T(!new)> {
    const schema: Schema<T>
    var table: Table<T>

    constructor (schema: Schema<T>)
      ensures this.schema == schema && table == SqlTables.Empty<T>()
    {
      this.schema := schema;
      table := SqlTables.Empty<T>();
    }

    /** Reports the id the row was given, cut to 32 bits. */
    method Insert(item: T) returns (r: Result<nat, DbError>)
      modifies this
      ensures match SqlTables.Insert(schema, old(table), item)
              case Ok(t) => table == t && r == Ok(t.lastId % 0x1_0000_0000)
              case Err(e) => table == old(table) && r == Err(e)
    {
      match SqlTables.Insert(schema, table, item)
      case Ok(t) =>
        table := t;
        r := Ok(t.lastId % 0x1_0000_0000);
      case Err(e) =>
        r := Err(e);
    }

    method Update(id: nat, item: T) returns (r: Result<Option<Row<T>>, DbError>)
      modifies this
      ensures match SqlTables.Update(schema, old(table), id, item)
              case Ok(t) => table == t && r == Ok(SqlTables.GetById(t, id))
              case Err(e) => table == old(table) && r == Err(e)
      ensures r.Ok? ==> r.value == Some(Row(id, item))
    {
      match SqlTables.Update(schema, table, id, item)
      case Ok(t) =>
        SqlTables.UpdatedIsFound(schema, table, id, item);
        table := t;
        r := Ok(SqlTables.GetById(table, id));
      case Err(e) =>
        r := Err(e);
    }

    method Upsert(id: nat, item: T) returns (r: Result<Option<Row<T>>, DbError>)
      modifies this
      ensures match SqlTables.Upsert(schema, old(table), id, item)
              case Ok(t) => table == t && r == Ok(SqlTables.Get(schema, t, schema.key(item)))
              case Err(e) => table == old(table) && r == Err(e)
      ensures r.Ok? ==> r.value.Some? && r.value.value in table.rows && schema.key(r.value.value.item) == schema.key(item)
    {
      SqlTables.UpsertedIsFound(schema, table, id, item);
      if SqlTables.Get(schema, table, schema.key(item)).Some? {
        var updated := Update(id, item);
        if updated.Err? {
          return Err(updated.error);
        }
      } else {
        var inserted := Insert(item);
        if inserted.Err? {
          return Err(inserted.error);
        }
      }
      r := Ok(SqlTables.Get(schema, table, schema.key(item)));
    }

    /** Afterwards no row has the id, every other row is there, and the id is not handed out again. */
    method DeleteById(id: nat)
      modifies this
      ensures table == SqlTables.Delete(old(table), SqlTables.IdIs<T>(id))
      ensures !table.HasId(id) && table.lastId == old(table).lastId
      ensures forall r :: r in table.rows <==> r in old(table).rows && r.id != id
    {
      SqlTables.DeletedById(table, id);
      table := SqlTables.Delete(table, SqlTables.IdIs<T>(id));
    }

    /** Afterwards a lookup by the key finds nothing, and every row of another key is there. */
    method DeleteByKey(key: string)
      modifies this
      ensures table == SqlTables.Delete(old(table), SqlTables.KeyIs(schema, key))
      ensures SqlTables.Get(schema, table, key) == None && table.lastId == old(table).lastId
      ensures forall r :: r in table.rows <==> r in old(table).rows && schema.key(r.item) != key
    {
      SqlTables.DeletedByKey(schema, table, key);
      table := SqlTables.Delete(table, SqlTables.KeyIs(schema, key));
    }
  }

  // ----- what UNIQUE does for each table

  /** From an empty table, every run of permitted upserts and any deletes is the same run on the empty map. */
  lemma EmptyTableRefinesMap<T(!new)>(sch: Schema<T>, ops: seq<Op<T>>)
    requires PermittedRun(sch, SqlTables.Empty<T>(), map[], ops)
    ensures var t, m := Run(sch, SqlTables.Empty<T>(), ops), RunOnMap(sch, SqlTables.Empty<T>(), map[], ops);
            Represents(sch, t, m) && forall k :: Get(sch, t, k) == if k in m then Some(m[k]) else None
  {
    EmptyRepresents(sch);
    TableRefinesMap(sch, SqlTables.Empty<T>(), map[], ops);
  }

  lemma EmptyRepresents<T(!new)>(sch: Schema<T>)
    ensures Represents(sch, SqlTables.Empty<T>(), map[])
  {
  }

  /** What an account upsert does, in the account's own fields.  An account nobody has under its account id is inserted
      unless its wallet has the path already; one that somebody has is written over the row its own id names, unless
      there is no such row or another row has the wallet and path.  No other row changes. */
  lemma AccountUpsertExactly(t: Table<AccountModel>, item: AccountModel)
    ensures var r := Upsert(ACCOUNTS, t, item.id, item);
            if exists i :: 0 <= i < |t.rows| && t.rows[i].item.accountId == item.accountId then
              && ((forall i :: 0 <= i < |t.rows| ==> t.rows[i].id != item.id) ==> r == Err(NoChangedRows))
              && (forall i :: 0 <= i < |t.rows| && t.rows[i].id == item.id && t.Valid() ==>
                    r == if PathElsewhere(t, item, i) then Err(UniqueViolation)
                         else Ok(Table(t.rows[i := Row(item.id, item)], t.lastId)))
            else
              r == if PathElsewhere(t, item, |t.rows|) then Err(UniqueViolation)
                   else Ok(Table(t.rows + [Row(t.lastId + 1, item)], t.lastId + 1))
  {
    var p := Position(t.rows, KeyIs(ACCOUNTS, item.accountId));
    assert forall i :: 0 <= i < |t.rows| ==> (KeyIs(ACCOUNTS, item.accountId)(t.rows[i]) <==> t.rows[i].item.accountId == item.accountId);
    assert forall i :: PathElsewhere(t, item, i) <==> Clashes(ACCOUNTS, t, item, i);
  }

  /** Some row other than the one at `except` has the wallet and path of the item. */
  predicate PathElsewhere(t: Table<AccountModel>, item: AccountModel, except: nat) {
    exists i :: 0 <= i < |t.rows| && i != except
                && t.rows[i].item.walletId == item.walletId && t.rows[i].item.derivationPath == item.derivationPath
  }

  /** So every row of another account stays, and the account is found under its id, if the item names its own row. */
  lemma AccountUpsertSparesOthers(t: Table<AccountModel>, item: AccountModel, r: Row<AccountModel>)
    requires t.Valid() && Upsert(ACCOUNTS, t, item.id, item).Ok? && r.item.accountId != item.accountId
    requires forall q :: q in t.rows && q.id == item.id ==> q.item.accountId == item.accountId
    ensures r in Upsert(ACCOUNTS, t, item.id, item).value.rows <==> r in t.rows
  {
    AccountUpsertExactly(t, item);
    var t' := Upsert(ACCOUNTS, t, item.id, item).value;
    if exists i :: 0 <= i < |t.rows| && t.rows[i].item.accountId == item.accountId {
      var p :| 0 <= p < |t.rows| && t.rows[p].id == item.id;
      assert t'.rows == t.rows[p := Row(item.id, item)] && t.rows[p] in t.rows;
      if r in t.rows {
        var i :| 0 <= i < |t.rows| && t.rows[i] == r;
        assert t'.rows[i] == r;
      }
    }
  }

  /** Addresses have nothing to stop an update by the wrong id: whenever the item carries the id of a
      row with another key, that row is overwritten and its key is lost. */
  lemma AddressUpsertOverwrites(t: Table<AddressModel>, m: map<string, Row<AddressModel>>, item: AddressModel)
    requires Represents(ADDRESSES, t, m) && item.serverId in m
    requires m[item.serverId].id != item.id && t.HasId(item.id)
    ensures Upsert(ADDRESSES, t, item.id, item).Ok?
    ensures var t' := Upsert(ADDRESSES, t, item.id, item).value;
            && (forall m' :: !Represents(ADDRESSES, t', m'))
            && (exists lost :: lost in m && m[lost].id == item.id && Get(ADDRESSES, t', lost) == None)
  {
    GetIsLookup(ADDRESSES, t, m, item.serverId);
    WrongIdOverwrites(ADDRESSES, t, m, item.id, item);
  }

  /** Wallets are protected: an item whose id is not that of its stored row is refused, by UNIQUE if
      some row has the id and for want of a row otherwise. */
  lemma WalletUpsertIsRefused(t: Table<WalletModel>, m: map<string, Row<WalletModel>>, item: WalletModel)
    requires Represents(WALLETS, t, m)
    ensures Upsert(WALLETS, t, item.id, item).Err? <==> item.walletId in m && m[item.walletId].id != item.id
    ensures item.walletId in m && m[item.walletId].id != item.id ==>
              Upsert(WALLETS, t, item.id, item) == Err(if t.HasId(item.id) then UniqueViolation else NoChangedRows)
  {
    var k := item.walletId;
    GetIsLookup(WALLETS, t, m, k);
    var p := Position(t.rows, IdIs(item.id));
    if k in m && m[k].id != item.id && t.HasId(item.id) {
      var n :| 0 <= n < |t.rows| && t.rows[n] == m[k];
      assert WALLETS.clash(t.rows[n].item, item);
      assert Clashes(WALLETS, t, item, p);
    } else if !(k in m && m[k].id != item.id) {
      assert forall r :: r in t.rows && WALLETS.clash(r.item, item) ==> WALLETS.key(r.item) == k;
      forall r | r in t.rows && WALLETS.clash(r.item, item) ensures k in m && r == m[k] {
        var n :| 0 <= n < |t.rows| && t.rows[n] == r;
      }
      PermittedUpsertPuts(WALLETS, t, m, item.id, item);
    }
  }

  /** So in every run of wallet upserts and deletes whatsoever, wallet ids stay unique. */
  lemma {:induction false} WalletsAlwaysRepresentAMap(
    t: Table<WalletModel>, m: map<string, Row<WalletModel>>, ops: seq<Op<WalletModel>>)
    returns (m': map<string, Row<WalletModel>>)
    requires Represents(WALLETS, t, m) && forall op :: op in ops && op.DoUpsert? ==> op.id == op.item.id
    ensures Represents(WALLETS, Run(WALLETS, t, ops), m')
    decreases |ops|
  {
    if ops == [] {
      m' := m;
    } else {
      var op := ops[0];
      var next := m;
      if op.DoUpsert? {
        WalletUpsertIsRefused(t, m, op.item);
        if Upsert(WALLETS, t, op.id, op.item).Ok? {
          WalletPermitted(t, m, op.item);
          ApplyRepresents(WALLETS, t, m, op);
          next := ApplyToMap(WALLETS, t, m, op);
        }
      } else {
        ApplyRepresents(WALLETS, t, m, op);
        next := ApplyToMap(WALLETS, t, m, op);
      }
      m' := WalletsAlwaysRepresentAMap(Apply(WALLETS, t, op), next, ops[1..]);
    }
  }

  lemma WalletPermitted(t: Table<WalletModel>, m: map<string, Row<WalletModel>>, item: WalletModel)
    requires Represents(WALLETS, t, m) && (item.walletId in m ==> m[item.walletId].id == item.id)
    ensures Permitted(WALLETS, t, m, item.id, item)
  {
    forall r | r in t.rows && WALLETS.clash(r.item, item) ensures item.walletId in m && r == m[item.walletId] {
      var n :| 0 <= n < |t.rows| && t.rows[n] == r;
      assert WALLETS.key(t.rows[n].item) == item.walletId;
    }
  }

  /** `upsert` is several statements.  Two callers that both look before either inserts give the
      address table two rows for one key. */
  lemma RacingAddressUpserts(t: Table<AddressModel>, m: map<string, Row<AddressModel>>, a: AddressModel, b: AddressModel)
    requires Represents(ADDRESSES, t, m) && a.serverId == b.serverId && a.serverId !in m
    ensures Get(ADDRESSES, t, a.serverId) == None == Get(ADDRESSES, t, b.serverId)
    ensures var t1 := Insert(ADDRESSES, t, a);
            t1.Ok? && var t2 := Insert(ADDRESSES, t1.value, b);
            t2.Ok? && forall m' :: !Represents(ADDRESSES, t2.value, m')
  {
    GetIsLookup(ADDRESSES, t, m, a.serverId);
    var t1 := Insert(ADDRESSES, t, a).value;
    var t2 := Insert(ADDRESSES, t1, b).value;
    var n := |t.rows|;
    assert t2.rows[n].item == a && t2.rows[n + 1].item == b;
    forall m' ensures !Represents(ADDRESSES, t2, m') {
      if Represents(ADDRESSES, t2, m') {
        GetIsLookup(ADDRESSES, t2, m', a.serverId);
      }
    }
  }
}
