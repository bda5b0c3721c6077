/** The wallet cache and its refresh from the server: `load_from_server`, and the two getters that fall
    back on it. */
module WalletRefresh {
  import opened Wrappers
  import opened SqlTables
  import opened Daos

  /** A wallet as the server sends it; `readAt` is the clock when it is converted. */
  datatype ApiWallet = ApiWallet(
    id: string, name: string, mnemonic: Option<string>, publicKey: Option<string>, fingerprint: Option<string>,
    hasPassphrase: nat, isImported: nat, priority: nat, status: nat, type_: nat, migrationRequired: Option<nat>,
    legacy: Option<nat>, showWalletRecovery: Option<bool>, readAt: nat)

  datatype MnemonicData = MnemonicData(walletId: string, mnemonic: Option<string>)

  datatype ProviderError = Database(error: DbError) | ServerFailed | StorageFailed | NoWalletKeysFound | NoMnemonicFound

  function Or<T>(o: Option<T>, default_: T): T { if o.Some? then o.value else default_ }

  /** The conversion gives every wallet the row id 0. */
  function ToModel(w: ApiWallet): WalletModel {
    WalletModel(0, w.id, w.name, "", w.priority, Some(Or(w.legacy, 0)),
      WalletDetails(w.hasPassphrase, Or(w.publicKey, ""), w.isImported, w.status, w.type_, w.readAt, w.readAt, 1,
                    w.fingerprint, if Or(w.showWalletRecovery, false) then 1 else 0, Or(w.migrationRequired, 0)))
  }

  function ToMnemonics(ws: seq<ApiWallet>): seq<MnemonicData> {
    seq(|ws|, i requires 0 <= i < |ws| => MnemonicData(ws[i].id, ws[i].mnemonic))
  }

  // ----- the loop as a value

  /** Upserts in list order until one fails: the table then, and the failure. */
  function LoadAll(t: Table<WalletModel>, ws: seq<ApiWallet>): (Table<WalletModel>, Option<DbError>)
    decreases |ws|
  {
    if ws == [] then (t, None)
    else
      match Upsert(WALLETS, t, ToModel(ws[0]).id, ToModel(ws[0]))
      case Err(e) => (t, Some(e))
      case Ok(t') => LoadAll(t', ws[1..])
  }

  /** How many leading wallets of the list are neither cached nor repeated. */
  function NewPrefix(ws: seq<ApiWallet>, known: set<string>): (n: nat)
    ensures n <= |ws|
    decreases |ws|
  {
    if ws == [] || ws[0].id in known then 0 else 1 + NewPrefix(ws[1..], known + {ws[0].id})
  }

  /** The prefix is the longest one without a cached or repeated id. */
  lemma {:induction false} NewPrefixIsLongest(ws: seq<ApiWallet>, known: set<string>)
    ensures var n := NewPrefix(ws, known);
            && (forall i :: 0 <= i < n ==> ws[i].id !in known)
            && (forall i, j :: 0 <= i < j < n ==> ws[i].id != ws[j].id)
            && (n < |ws| ==> ws[n].id in known || exists i :: 0 <= i < n && ws[i].id == ws[n].id)
    decreases |ws|
  {
    if ws != [] && ws[0].id !in known {
      var rest := ws[1..];
      NewPrefixIsLongest(rest, known + {ws[0].id});
      var n := NewPrefix(ws, known);
      assert forall i :: 1 <= i < |ws| ==> ws[i] == rest[i - 1];
      if n < |ws| && ws[n].id !in known {
        if ws[n].id == ws[0].id {
          assert 0 <= 0 < n && ws[0].id == ws[n].id;
        } else {
          var i :| 0 <= i < n - 1 && rest[i].id == rest[n - 1].id;
          assert ws[i + 1].id == ws[n].id;
        }
      }
    }
  }

  /** The rows a list of new wallets adds, with consecutive ids. */
  function NewRows(ws: seq<ApiWallet>, lastId: nat): seq<Row<WalletModel>> {
    seq(|ws|, i requires 0 <= i < |ws| => Row(lastId + 1 + i, ToModel(ws[i])))
  }

  lemma CachedWalletIsRefused(t: Table<WalletModel>, m: map<string, Row<WalletModel>>, w: ApiWallet)
    requires Represents(WALLETS, t, m)
    ensures Upsert(WALLETS, t, 0, ToModel(w)) ==
            if w.id in m then Err(NoChangedRows)
            else Ok(Table(t.rows + [Row(t.lastId + 1, ToModel(w))], t.lastId + 1))
  {
    GetIsLookup(WALLETS, t, m, w.id);
    if w.id in m {
      UnknownIdChangesNothing(WALLETS, t, m, 0, ToModel(w));
    } else {
      forall i | 0 <= i < |t.rows| ensures !WALLETS.clash(t.rows[i].item, ToModel(w)) {
        assert WALLETS.key(t.rows[i].item) in m;
      }
    }
  }

  /** A refresh appends the wallets of the longest new prefix, in list order; the first cached or repeated
      wallet stops it with `NoChangedRows`, because no row has the id 0. */
  lemma {:induction false} RefreshInsertsTheNewPrefix(t: Table<WalletModel>, m: map<string, Row<WalletModel>>, ws: seq<ApiWallet>)
    returns (m': map<string, Row<WalletModel>>)
    requires Represents(WALLETS, t, m)
    ensures var n := NewPrefix(ws, m.Keys);
            && LoadAll(t, ws).0 == Table(t.rows + NewRows(ws[..n], t.lastId), t.lastId + n)
            && LoadAll(t, ws).1 == (if n == |ws| then None else Some(NoChangedRows))
    ensures Represents(WALLETS, LoadAll(t, ws).0, m')
    ensures m'.Keys == m.Keys + Ids(ws, NewPrefix(ws, m.Keys))
    decreases |ws|
  {
    m' := m;
    if ws == [] || ws[0].id in m {
      if ws != [] {
        CachedWalletIsRefused(t, m, ws[0]);
      }
      assert t.rows + NewRows(ws[..0], t.lastId) == t.rows;
      assert Ids(ws, 0) == {};
    } else {
      m' := RefreshFirst(t, m, ws);
    }
  }

  lemma {:induction false} RefreshFirst(t: Table<WalletModel>, m: map<string, Row<WalletModel>>, ws: seq<ApiWallet>)
    returns (m': map<string, Row<WalletModel>>)
    requires Represents(WALLETS, t, m) && ws != [] && ws[0].id !in m
    ensures var n := NewPrefix(ws, m.Keys);
            && LoadAll(t, ws).0 == Table(t.rows + NewRows(ws[..n], t.lastId), t.lastId + n)
            && LoadAll(t, ws).1 == (if n == |ws| then None else Some(NoChangedRows))
    ensures Represents(WALLETS, LoadAll(t, ws).0, m')
    ensures m'.Keys == m.Keys + Ids(ws, NewPrefix(ws, m.Keys))
    decreases |ws|, 0
  {
    var t1 := Table(t.rows + [Row(t.lastId + 1, ToModel(ws[0]))], t.lastId + 1);
    var m1 := Put(WALLETS, t, m, ToModel(ws[0]));
    FirstIsInserted(t, m, ws);
    m' := RefreshInsertsTheNewPrefix(t1, m1, ws[1..]);
    AppendRows(t, ws, NewPrefix(ws, m.Keys));
    PrefixKeys(m.Keys, ws, NewPrefix(ws, m.Keys));
  }

  lemma FirstIsInserted(t: Table<WalletModel>, m: map<string, Row<WalletModel>>, ws: seq<ApiWallet>)
    requires Represents(WALLETS, t, m) && ws != [] && ws[0].id !in m
    ensures var t1 := Table(t.rows + [Row(t.lastId + 1, ToModel(ws[0]))], t.lastId + 1);
            var m1 := Put(WALLETS, t, m, ToModel(ws[0]));
            Represents(WALLETS, t1, m1) && m1.Keys == m.Keys + {ws[0].id} && LoadAll(t, ws) == LoadAll(t1, ws[1..])
  {
    CachedWalletIsRefused(t, m, ws[0]);
    InsertRepresents(WALLETS, t, m, ToModel(ws[0]));
  }

  lemma AppendRows(t: Table<WalletModel>, ws: seq<ApiWallet>, n: nat)
    requires 0 < n <= |ws|
    ensures t.rows + [Row(t.lastId + 1, ToModel(ws[0]))] + NewRows(ws[1..][..n - 1], t.lastId + 1) == t.rows + NewRows(ws[..n], t.lastId)
  {
    RowsOfPrefix(ws, n, t.lastId);
    var first, rest := [Row(t.lastId + 1, ToModel(ws[0]))], NewRows(ws[1..][..n - 1], t.lastId + 1);
    assert t.rows + first + rest == t.rows + (first + rest);
  }

  /** The ids of the first `n` wallets. */
  ghost function Ids(ws: seq<ApiWallet>, n: nat): set<string>
    requires n <= |ws|
  {
    set i | 0 <= i < n :: ws[i].id
  }

  lemma RowsOfPrefix(ws: seq<ApiWallet>, n: nat, lastId: nat)
    requires 0 < n <= |ws|
    ensures [Row(lastId + 1, ToModel(ws[0]))] + NewRows(ws[1..][..n - 1], lastId + 1) == NewRows(ws[..n], lastId)
  {
    var tail, all := ws[1..][..n - 1], ws[..n];
    assert forall i :: 0 <= i < n - 1 ==> tail[i] == all[i + 1];
  }

  lemma PrefixKeys(known: set<string>, ws: seq<ApiWallet>, n: nat)
    requires 0 < n <= |ws|
    ensures known + Ids(ws, n) == known + {ws[0].id} + Ids(ws[1..], n - 1)
  {
    var tail := ws[1..];
    assert forall i :: 0 <= i < n - 1 ==> tail[i] == ws[i + 1];
    forall x | x in Ids(ws, n) ensures x in {ws[0].id} + Ids(tail, n - 1) {
      var i :| 0 <= i < n && ws[i].id == x;
      if i > 0 {
        assert tail[i - 1].id == x;
      }
    }
    forall x | x in Ids(tail, n - 1) ensures x in Ids(ws, n) {
      var i :| 0 <= i < n - 1 && tail[i].id == x;
      assert ws[i + 1].id == x;
    }
  }

  // ----- the provider

  /** The callbacks Dart has registered for mnemonics, and the batches handed to the saving one. */
  class WalletMnemonicStore {
    var canGet: bool
    var canSave: bool
    var saved: seq<seq<MnemonicData>>

    constructor (canGet: bool, canSave: bool)
      ensures this.canGet == canGet && this.canSave == canSave && saved == []
    {
      this.canGet, this.canSave, saved := canGet, canSave, [];
    }

    method GetWalletMnemonics(reply: seq<MnemonicData>) returns (r: Option<seq<MnemonicData>>)
      ensures r == if canGet then Some(reply) else None
    {
      r := if canGet then Some(reply) else None;
    }

    method SaveApiWalletMnemonics(ms: seq<MnemonicData>) returns (ok: bool)
      modifies this
      ensures canGet == old(canGet) && canSave == old(canSave) && ok == canSave
      ensures saved == if canSave then old(saved) + [ms] else old(saved)
    {
      if canSave {
        saved := saved + [ms];
      }
      ok := canSave;
    }
  }

  /** `find` on the wallet id, then the mnemonic of that entry, which may be missing. */
  function FindMnemonic(ms: seq<MnemonicData>, id: string): Option<string> {
    if ms == [] then None
    else if ms[0].walletId == id then ms[0].mnemonic
    else FindMnemonic(ms[1..], id)
  }

  /** The error of a refresh, if it fails. */
  function RefreshError(t: Table<WalletModel>, server: Option<seq<ApiWallet>>, canSave: bool): Option<ProviderError> {
    if server == None then Some(ServerFailed)
    else
      match LoadAll(t, server.value).1
      case Some(e) => Some(Database(e))
      case None => if canSave then None else Some(StorageFailed)
  }

  function RefreshTable(t: Table<WalletModel>, server: Option<seq<ApiWallet>>): Table<WalletModel> {
    if server == None then t else LoadAll(t, server.value).0
  }

  class WalletDataProvider {
    const walletDao: Dao<WalletModel>
    const mnemonicStore: WalletMnemonicStore

    constructor (walletDao: Dao<WalletModel>, mnemonicStore: WalletMnemonicStore)
      ensures this.walletDao == walletDao && this.mnemonicStore == mnemonicStore
    {
      this.walletDao, this.mnemonicStore := walletDao, mnemonicStore;
    }

    /** Mnemonics are handed to the store only after every wallet has been inserted. */
    method LoadFromServer(server: Option<seq<ApiWallet>>) returns (error: Option<ProviderError>)
      requires walletDao.schema == WALLETS
      modifies walletDao, mnemonicStore
      ensures error == RefreshError(old(walletDao.table), server, old(mnemonicStore.canSave))
      ensures walletDao.table == RefreshTable(old(walletDao.table), server)
      ensures mnemonicStore.canGet == old(mnemonicStore.canGet) && mnemonicStore.canSave == old(mnemonicStore.canSave)
      ensures mnemonicStore.saved == if error == None then old(mnemonicStore.saved) + [ToMnemonics(server.value)] else old(mnemonicStore.saved)
    {
      if server == None {
        return Some(ServerFailed);
      }
      var ws := server.value;
      for k := 0 to |ws|
        invariant LoadAll(old(walletDao.table), ws) == LoadAll(walletDao.table, ws[k..])
        invariant mnemonicStore.canGet == old(mnemonicStore.canGet) && mnemonicStore.canSave == old(mnemonicStore.canSave)
        invariant mnemonicStore.saved == old(mnemonicStore.saved)
      {
        assert ws[k..][0] == ws[k] && ws[k..][1..] == ws[k + 1..];
        var item := ToModel(ws[k]);
        var r := walletDao.Upsert(item.id, item);
        if r.Err? {
          return Some(Database(r.error));
        }
      }
      var ok := mnemonicStore.SaveApiWalletMnemonics(ToMnemonics(ws));
      return if ok then None else Some(StorageFailed);
    }

    method GetWallet(id: string, server: Option<seq<ApiWallet>>) returns (r: Result<Row<WalletModel>, ProviderError>)
      requires walletDao.schema == WALLETS
      modifies walletDao, mnemonicStore
      ensures r == GetWalletResult(old(walletDao.table), server, old(mnemonicStore.canSave), id)
      ensures var refreshes := Get(WALLETS, old(walletDao.table), id) == None;
              && walletDao.table == (if refreshes then RefreshTable(old(walletDao.table), server) else old(walletDao.table))
              && mnemonicStore.saved ==
                   if refreshes && RefreshError(old(walletDao.table), server, old(mnemonicStore.canSave)) == None
                   then old(mnemonicStore.saved) + [ToMnemonics(server.value)] else old(mnemonicStore.saved)
    {
      var cached := Get(WALLETS, walletDao.table, id);
      if cached.Some? {
        return Ok(cached.value);
      }
      var error := LoadFromServer(server);
      if error.Some? {
        return Err(error.value);
      }
      cached := Get(WALLETS, walletDao.table, id);
      return if cached.Some? then Ok(cached.value) else Err(NoWalletKeysFound);
    }

    /** `before` and `after` are what the store answers before and after the refresh. */
    method GetWalletMnemonic(id: string, before: seq<MnemonicData>, after: seq<MnemonicData>, server: Option<seq<ApiWallet>>)
      returns (r: Result<string, ProviderError>)
      requires walletDao.schema == WALLETS
      modifies walletDao, mnemonicStore
      ensures r == GetMnemonicResult(old(walletDao.table), server, old(mnemonicStore.canGet), old(mnemonicStore.canSave), before, after, id)
      ensures var refreshes := old(mnemonicStore.canGet) && FindMnemonic(before, id) == None;
              && walletDao.table == (if refreshes then RefreshTable(old(walletDao.table), server) else old(walletDao.table))
              && mnemonicStore.saved ==
                   if refreshes && RefreshError(old(walletDao.table), server, old(mnemonicStore.canSave)) == None
                   then old(mnemonicStore.saved) + [ToMnemonics(server.value)] else old(mnemonicStore.saved)
    {
      var answer := mnemonicStore.GetWalletMnemonics(before);
      if answer == None {
        return Err(StorageFailed);
      }
      var found := FindMnemonic(answer.value, id);
      if found.Some? {
        return Ok(found.value);
      }
      var error := LoadFromServer(server);
      if error.Some? {
        return Err(error.value);
      }
      answer := mnemonicStore.GetWalletMnemonics(after);
      if answer == None {
        return Err(StorageFailed);
      }
      found := FindMnemonic(answer.value, id);
      return if found.Some? then Ok(found.value) else Err(NoMnemonicFound);
    }
  }

  function GetWalletResult(t: Table<WalletModel>, server: Option<seq<ApiWallet>>, canSave: bool, id: string)
    : Result<Row<WalletModel>, ProviderError>
  {
    if Get(WALLETS, t, id).Some? then Ok(Get(WALLETS, t, id).value)
    else
      match RefreshError(t, server, canSave)
      case Some(e) => Err(e)
      case None =>
        var found := Get(WALLETS, RefreshTable(t, server), id);
        if found.Some? then Ok(found.value) else Err(NoWalletKeysFound)
  }

  function GetMnemonicResult(
    t: Table<WalletModel>, server: Option<seq<ApiWallet>>, canGet: bool, canSave: bool,
    before: seq<MnemonicData>, after: seq<MnemonicData>, id: string): Result<string, ProviderError>
  {
    if !canGet then Err(StorageFailed)
    else if FindMnemonic(before, id).Some? then Ok(FindMnemonic(before, id).value)
    else
      match RefreshError(t, server, canSave)
      case Some(e) => Err(e)
      case None =>
        var found := FindMnemonic(after, id);
        if found.Some? then Ok(found.value) else Err(NoMnemonicFound)
  }

  // ----- when the getters succeed

  /** A refresh goes through exactly when the server answers with wallets that are all new and distinct,
      and the mnemonics can be saved. */
  ghost predicate CleanRefresh(m: map<string, Row<WalletModel>>, server: Option<seq<ApiWallet>>, canSave: bool) {
    && server.Some? && canSave
    && (forall i :: 0 <= i < |server.value| ==> server.value[i].id !in m)
    && (forall i, j :: 0 <= i < j < |server.value| ==> server.value[i].id != server.value[j].id)
  }

  lemma {:induction false} RefreshSucceedsExactly(t: Table<WalletModel>, m: map<string, Row<WalletModel>>, server: Option<seq<ApiWallet>>, canSave: bool)
    requires Represents(WALLETS, t, m)
    ensures RefreshError(t, server, canSave) == None <==> CleanRefresh(m, server, canSave)
  {
    if server.Some? {
      var _ := RefreshInsertsTheNewPrefix(t, m, server.value);
      NewPrefixIsLongest(server.value, m.Keys);
    }
  }

  /** Why a refresh fails: the server did not answer; or a wallet of its list is cached or repeated; or only then the
      mnemonics cannot be saved. */
  lemma {:induction false} RefreshFailsExactly(t: Table<WalletModel>, m: map<string, Row<WalletModel>>, server: Option<seq<ApiWallet>>, canSave: bool)
    requires Represents(WALLETS, t, m)
    ensures RefreshError(t, server, canSave) == Some(ServerFailed) <==> server == None
    ensures RefreshError(t, server, canSave) == Some(Database(NoChangedRows)) <==> server.Some? && !CleanRefresh(m, server, true)
    ensures RefreshError(t, server, canSave) == Some(StorageFailed) <==> CleanRefresh(m, server, true) && !canSave
  {
    RefreshSucceedsExactly(t, m, server, true);
    if server.Some? {
      var _ := RefreshInsertsTheNewPrefix(t, m, server.value);
    }
  }

  ghost predicate Sent(server: Option<seq<ApiWallet>>, id: string) {
    server.Some? && exists i :: 0 <= i < |server.value| && server.value[i].id == id
  }

  /** After a clean refresh exactly the old and the sent wallets are cached. */
  lemma {:induction false} CleanRefreshCachesAll(t: Table<WalletModel>, m: map<string, Row<WalletModel>>, ws: seq<ApiWallet>, canSave: bool, id: string)
    requires Represents(WALLETS, t, m) && CleanRefresh(m, Some(ws), canSave)
    ensures var found := Get(WALLETS, LoadAll(t, ws).0, id);
            (found.Some? <==> id in m || Sent(Some(ws), id)) && (found.Some? ==> found.value.item.walletId == id)
  {
    var m' := RefreshInsertsTheNewPrefix(t, m, ws);
    NewPrefixIsLongest(ws, m.Keys);
    assert NewPrefix(ws, m.Keys) == |ws|;
    assert id in Ids(ws, |ws|) <==> Sent(Some(ws), id);
    GetIsLookup(WALLETS, LoadAll(t, ws).0, m', id);
  }

  /** `get_wallet` returns the cached wallet, or after a clean refresh the one the server has sent. */
  lemma {:induction false} GetWalletSucceedsExactly(
    t: Table<WalletModel>, m: map<string, Row<WalletModel>>, server: Option<seq<ApiWallet>>, canSave: bool, id: string)
    requires Represents(WALLETS, t, m)
    ensures GetWalletResult(t, server, canSave, id).Ok? <==> id in m || (CleanRefresh(m, server, canSave) && Sent(server, id))
    ensures GetWalletResult(t, server, canSave, id).Ok? ==> GetWalletResult(t, server, canSave, id).value.item.walletId == id
  {
    GetIsLookup(WALLETS, t, m, id);
    if id !in m {
      RefreshSucceedsExactly(t, m, server, canSave);
      if CleanRefresh(m, server, canSave) {
        CleanRefreshCachesAll(t, m, server.value, canSave, id);
      }
    }
  }

  /** The row shows what the server sent, with its defaults: no row of its own yet, no user, one account, and the same
      clock for both times. */
  predicate Shows(item: WalletModel, w: ApiWallet) {
    && item.id == 0 && item.walletId == w.id && item.name == w.name && item.priority == w.priority && item.userId == ""
    && item.legacy == Some(if w.legacy == None then 0 else w.legacy.value)
    && item.details.publicKey == (if w.publicKey == None then "" else w.publicKey.value)
    && item.details.fingerprint == w.fingerprint
    && item.details.passphrase == w.hasPassphrase && item.details.imported == w.isImported
    && item.details.status == w.status && item.details.type_ == w.type_ && item.details.accountCount == 1
    && item.details.createTime == w.readAt == item.details.modifyTime
    && (item.details.showWalletRecovery == 1 <==> w.showWalletRecovery == Some(true)) && item.details.showWalletRecovery <= 1
    && item.details.migrationRequired == (if w.migrationRequired == None then 0 else w.migrationRequired.value)
  }

  /** Which wallet or which error is answered: the cached row as it is, else after a clean refresh the row of the wallet
      the server has sent; a failing refresh is reported as such, and a wallet in neither place as not found. */
  lemma {:induction false} GetWalletAnswers(
    t: Table<WalletModel>, m: map<string, Row<WalletModel>>, server: Option<seq<ApiWallet>>, canSave: bool, id: string)
    requires Represents(WALLETS, t, m)
    ensures var r := GetWalletResult(t, server, canSave, id);
            && (id in m ==> r == Ok(m[id]))
            && (id !in m ==>
                  && (server == None ==> r == Err(ServerFailed))
                  && (CleanRefresh(m, server, canSave) ==>
                        && (!Sent(server, id) ==> r == Err(NoWalletKeysFound))
                        && (forall i :: 0 <= i < |server.value| && server.value[i].id == id ==>
                              r.Ok? && r.value.id == t.lastId + 1 + i && Shows(r.value.item, server.value[i]))))
  {
    GetIsLookup(WALLETS, t, m, id);
    if id !in m && CleanRefresh(m, server, canSave) {
      RefreshSucceedsExactly(t, m, server, canSave);
      CleanRefreshCachesAll(t, m, server.value, canSave, id);
      forall i | 0 <= i < |server.value| && server.value[i].id == id
        ensures Get(WALLETS, LoadAll(t, server.value).0, id) == Some(Row(t.lastId + 1 + i, ToModel(server.value[i])))
        ensures Shows(ToModel(server.value[i]), server.value[i])
      {
        SentWalletIsFound(t, m, server.value, canSave, i);
        ModelShows(server.value[i]);
      }
    }
  }

  lemma ModelShows(w: ApiWallet)
    ensures Shows(ToModel(w), w)
  {
  }

  /** After a clean refresh the `i`-th wallet sent is found in the `i`-th new row. */
  lemma {:induction false} SentWalletIsFound(
    t: Table<WalletModel>, m: map<string, Row<WalletModel>>, ws: seq<ApiWallet>, canSave: bool, i: nat)
    requires Represents(WALLETS, t, m) && CleanRefresh(m, Some(ws), canSave) && i < |ws|
    ensures Get(WALLETS, LoadAll(t, ws).0, ws[i].id) == Some(Row(t.lastId + 1 + i, ToModel(ws[i])))
  {
    var m' := RefreshInsertsTheNewPrefix(t, m, ws);
    NewPrefixIsLongest(ws, m.Keys);
    assert NewPrefix(ws, m.Keys) == |ws|;
    assert ws[..|ws|] == ws;
    NewRowIsFound(t, LoadAll(t, ws).0, m', ws, i);
  }

  lemma NewRowIsFound(
    t: Table<WalletModel>, t': Table<WalletModel>, m': map<string, Row<WalletModel>>, ws: seq<ApiWallet>, i: nat)
    requires Represents(WALLETS, t', m') && i < |ws| && t'.rows == t.rows + NewRows(ws, t.lastId)
    ensures Get(WALLETS, t', ws[i].id) == Some(Row(t.lastId + 1 + i, ToModel(ws[i])))
  {
    assert t'.rows[|t.rows| + i] == NewRows(ws, t.lastId)[i];
    GetIsLookup(WALLETS, t', m', ws[i].id);
    assert WALLETS.key(t'.rows[|t.rows| + i].item) == ws[i].id;
  }

  ghost predicate SomeCached(m: map<string, Row<WalletModel>>, ws: seq<ApiWallet>) {
    exists i :: 0 <= i < |ws| && ws[i].id in m
  }

  /** Once a wallet the server still sends is cached, asking for any other one fails, although the wallets
      sent before the cached one have been stored; asking again finds exactly those. */
  lemma {:induction false} CachedWalletBlocksRefresh(
    t: Table<WalletModel>, m: map<string, Row<WalletModel>>, ws: seq<ApiWallet>, canSave: bool, id: string)
    requires Represents(WALLETS, t, m) && id !in m && SomeCached(m, ws)
    ensures GetWalletResult(t, Some(ws), canSave, id) == Err(Database(NoChangedRows))
    ensures var retry := GetWalletResult(RefreshTable(t, Some(ws)), Some(ws), canSave, id);
            retry.Ok? <==> id in Ids(ws, NewPrefix(ws, m.Keys))
  {
    RefusedOutright(t, m, ws, canSave, id);
    var m' := RefreshInsertsTheNewPrefix(t, m, ws);
    StaysUnclean(m, m', ws, canSave);
    GetWalletSucceedsExactly(LoadAll(t, ws).0, m', Some(ws), canSave, id);
  }

  lemma StaysUnclean(m: map<string, Row<WalletModel>>, m': map<string, Row<WalletModel>>, ws: seq<ApiWallet>, canSave: bool)
    requires SomeCached(m, ws) && m.Keys <= m'.Keys
    ensures !CleanRefresh(m', Some(ws), canSave)
  {
    var i :| 0 <= i < |ws| && ws[i].id in m;
    assert ws[i].id in m'.Keys;
  }

  lemma {:induction false} RefusedOutright(
    t: Table<WalletModel>, m: map<string, Row<WalletModel>>, ws: seq<ApiWallet>, canSave: bool, id: string)
    requires Represents(WALLETS, t, m) && id !in m && SomeCached(m, ws)
    ensures GetWalletResult(t, Some(ws), canSave, id) == Err(Database(NoChangedRows))
  {
    GetIsLookup(WALLETS, t, m, id);
    var _ := RefreshInsertsTheNewPrefix(t, m, ws);
    NewPrefixIsLongest(ws, m.Keys);
  }

  /** `get_wallet_mnemonic` succeeds exactly when the store can be read and has the mnemonic at once, or has it
      after a clean refresh. */
  lemma {:induction false} GetMnemonicSucceedsExactly(
    t: Table<WalletModel>, m: map<string, Row<WalletModel>>, server: Option<seq<ApiWallet>>, canGet: bool, canSave: bool,
    before: seq<MnemonicData>, after: seq<MnemonicData>, id: string)
    requires Represents(WALLETS, t, m)
    ensures GetMnemonicResult(t, server, canGet, canSave, before, after, id).Ok? <==>
            canGet && (FindMnemonic(before, id).Some? || (CleanRefresh(m, server, canSave) && FindMnemonic(after, id).Some?))
  {
    RefreshSucceedsExactly(t, m, server, canSave);
  }

  /** The search returns the mnemonic of the first entry of the wallet, if that entry has one. */
  lemma {:induction false} FindMnemonicExactly(ms: seq<MnemonicData>, id: string, v: string)
    ensures FindMnemonic(ms, id) == Some(v) <==>
            exists i :: 0 <= i < |ms| && ms[i].walletId == id && ms[i].mnemonic == Some(v) && forall j :: 0 <= j < i ==> ms[j].walletId != id
    decreases |ms|
  {
    if ms != [] && ms[0].walletId != id {
      var rest := ms[1..];
      FindMnemonicExactly(rest, id, v);
      assert forall i :: 1 <= i < |ms| ==> ms[i] == rest[i - 1];
      if i :| 0 <= i < |rest| && rest[i].walletId == id && rest[i].mnemonic == Some(v) && forall j :: 0 <= j < i ==> rest[j].walletId != id {
        assert ms[i + 1] == rest[i];
      }
      if i :| 0 <= i < |ms| && ms[i].walletId == id && ms[i].mnemonic == Some(v) && forall j :: 0 <= j < i ==> ms[j].walletId != id {
        assert rest[i - 1] == ms[i];
        assert forall j :: 0 <= j < i - 1 ==> rest[j] == ms[j + 1];
      }
    }
  }

  /** Which mnemonic or which error is answered: what the store had, else what it has after a refresh; an unreadable
      store and a failing refresh are reported as such. */
  lemma {:induction false} GetMnemonicAnswers(
    t: Table<WalletModel>, server: Option<seq<ApiWallet>>, canGet: bool, canSave: bool,
    before: seq<MnemonicData>, after: seq<MnemonicData>, id: string)
    ensures var r := GetMnemonicResult(t, server, canGet, canSave, before, after, id);
            && (!canGet ==> r == Err(StorageFailed))
            && (forall v :: canGet && FindMnemonic(before, id) == Some(v) ==> r == Ok(v))
            && (forall e :: canGet && FindMnemonic(before, id) == None && RefreshError(t, server, canSave) == Some(e) ==> r == Err(e))
            && (canGet && FindMnemonic(before, id) == None && RefreshError(t, server, canSave) == None ==>
                  && (forall v :: FindMnemonic(after, id) == Some(v) ==> r == Ok(v))
                  && (FindMnemonic(after, id) == None ==> r == Err(NoMnemonicFound)))
  {
  }

  /** If the store then answers what it was just given, the second search succeeds exactly when the server has
      sent this wallet with a mnemonic. */
  lemma {:induction false} EchoingStoreHasWhatWasSent(
    t: Table<WalletModel>, m: map<string, Row<WalletModel>>, ws: seq<ApiWallet>, canSave: bool, before: seq<MnemonicData>, id: string)
    requires Represents(WALLETS, t, m)
    ensures GetMnemonicResult(t, Some(ws), true, canSave, before, ToMnemonics(ws), id).Ok? <==>
            || FindMnemonic(before, id).Some?
            || (CleanRefresh(m, Some(ws), canSave) && exists i :: 0 <= i < |ws| && ws[i].id == id && ws[i].mnemonic.Some?)
    ensures FindMnemonic(before, id) == None && CleanRefresh(m, Some(ws), canSave) ==>
              forall i, v :: 0 <= i < |ws| && ws[i].id == id && ws[i].mnemonic == Some(v) ==>
                GetMnemonicResult(t, Some(ws), true, canSave, before, ToMnemonics(ws), id) == Ok(v)
  {
    GetMnemonicSucceedsExactly(t, m, Some(ws), true, canSave, before, ToMnemonics(ws), id);
    RefreshSucceedsExactly(t, m, Some(ws), canSave);
    if CleanRefresh(m, Some(ws), canSave) {
      FindAmongDistinct(ws, id);
      forall i, v | 0 <= i < |ws| && ws[i].id == id && ws[i].mnemonic == Some(v) ensures FindMnemonic(ToMnemonics(ws), id) == Some(v) {
        assert ToMnemonics(ws)[i] == MnemonicData(id, Some(v));
        FindMnemonicExactly(ToMnemonics(ws), id, v);
      }
    }
  }

  lemma {:induction false} FindAmongDistinct(ws: seq<ApiWallet>, id: string)
    requires forall i, j :: 0 <= i < j < |ws| ==> ws[i].id != ws[j].id
    ensures FindMnemonic(ToMnemonics(ws), id).Some? <==> exists i :: 0 <= i < |ws| && ws[i].id == id && ws[i].mnemonic.Some?
    decreases |ws|
  {
    if ws != [] {
      assert ToMnemonics(ws)[1..] == ToMnemonics(ws[1..]);
      FindAmongDistinct(ws[1..], id);
      assert forall i :: 0 <= i < |ws[1..]| ==> ws[1..][i] == ws[i + 1];
      if i :| 0 <= i < |ws| && ws[i].id == id && ws[i].mnemonic.Some? {
        if i > 0 {
          assert ws[1..][i - 1].id == id;
        }
      }
    }
  }
}
