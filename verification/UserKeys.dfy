/** The user-key table, its upsert by `key_id` under a primary key (key_id, user_id), and the provider
    that reads keys from the database, the server or the default key. */
module UserKeys {
  import opened Wrappers
  import opened SqlTables
  import CryptoTerms
  import WalletSecrets

  datatype UserKey = UserKey(keyId: string, userId: string, body: KeyBody)

  datatype KeyBody = KeyBody(
    version: nat, privateKey: CryptoTerms.Text, token: Option<string>, fingerprint: Option<string>,
    recoverySecret: Option<string>, recoverySecretSignature: Option<string>, primary: nat, active: nat)

  type LockedKey = WalletSecrets.LockedKey

  /** Every stored key counts as active, whatever its row says. */
  function ToLocked(k: UserKey): LockedKey {
    WalletSecrets.LockedKey(k.keyId, k.body.version, k.body.primary == 1, true, k.body.privateKey, k.body.token,
                            k.body.recoverySecret, k.body.recoverySecretSignature)
  }

  function AllLocked(ks: seq<UserKey>): seq<LockedKey> {
    seq(|ks|, i requires 0 <= i < |ks| => ToLocked(ks[i]))
  }

  // ----- statements

  function GetByKeyId(rows: seq<UserKey>, id: string): Option<UserKey> {
    if rows == [] then None else if rows[0].keyId == id then Some(rows[0]) else GetByKeyId(rows[1..], id)
  }

  function OfUser(rows: seq<UserKey>, userId: string): seq<UserKey> {
    if rows == [] then []
    else (if rows[0].userId == userId then [rows[0]] else []) + OfUser(rows[1..], userId)
  }

  function CountKey(rows: seq<UserKey>, id: string): nat {
    if rows == [] then 0 else (if rows[0].keyId == id then 1 else 0) + CountKey(rows[1..], id)
  }

  function Overwrite(rows: seq<UserKey>, item: UserKey): seq<UserKey> {
    seq(|rows|, i requires 0 <= i < |rows| => if rows[i].keyId == item.keyId then item else rows[i])
  }

  function InsertKey(rows: seq<UserKey>, item: UserKey): Result<seq<UserKey>, DbError> {
    if exists i :: 0 <= i < |rows| && rows[i].keyId == item.keyId && rows[i].userId == item.userId then Err(UniqueViolation)
    else Ok(rows + [item])
  }

  /** `UPDATE … WHERE key_id`: it also sets `user_id`, so two matching rows would become equal and are refused. */
  function UpdateKey(rows: seq<UserKey>, item: UserKey): Result<seq<UserKey>, DbError> {
    var n := CountKey(rows, item.keyId);
    if n == 0 then Err(UpdateFailed) else if n > 1 then Err(UniqueViolation) else Ok(Overwrite(rows, item))
  }

  function UpsertKey(rows: seq<UserKey>, item: UserKey): Result<seq<UserKey>, DbError> {
    if GetByKeyId(rows, item.keyId).Some? then UpdateKey(rows, item) else InsertKey(rows, item)
  }

  // ----- one row per key

  ghost predicate OneRowPerKey(rows: seq<UserKey>) {
    forall i, j :: 0 <= i < j < |rows| ==> rows[i].keyId != rows[j].keyId
  }

  lemma {:induction false} GetIsFirst(rows: seq<UserKey>, id: string)
    ensures GetByKeyId(rows, id) == None <==> forall i :: 0 <= i < |rows| ==> rows[i].keyId != id
    ensures GetByKeyId(rows, id).Some? ==> exists i :: 0 <= i < |rows| && rows[i] == GetByKeyId(rows, id).value && rows[i].keyId == id
  {
    if rows != [] && rows[0].keyId != id {
      GetIsFirst(rows[1..], id);
      assert forall i :: 1 <= i < |rows| ==> rows[i] == rows[1..][i - 1];
      if GetByKeyId(rows[1..], id).Some? {
        var i :| 0 <= i < |rows[1..]| && rows[1..][i] == GetByKeyId(rows, id).value && rows[1..][i].keyId == id;
        assert rows[i + 1] == GetByKeyId(rows, id).value;
      }
    }
  }

  lemma GetInUnique(rows: seq<UserKey>, i: nat)
    requires OneRowPerKey(rows) && i < |rows|
    ensures GetByKeyId(rows, rows[i].keyId) == Some(rows[i])
  {
    GetIsFirst(rows, rows[i].keyId);
    var j :| 0 <= j < |rows| && rows[j] == GetByKeyId(rows, rows[i].keyId).value && rows[j].keyId == rows[i].keyId;
    assert j == i;
  }

  lemma {:induction false} CountInUnique(rows: seq<UserKey>, id: string)
    requires OneRowPerKey(rows)
    ensures CountKey(rows, id) == if GetByKeyId(rows, id).Some? then 1 else 0
  {
    if rows != [] {
      CountInUnique(rows[1..], id);
      GetIsFirst(rows[1..], id);
      assert forall i :: 0 <= i < |rows[1..]| ==> rows[1..][i] == rows[i + 1];
    }
  }

  /** With one row per key an upsert cannot fail: the key then has exactly the given contents and owner,
      whoever owned it before, every other key has the row it had, and there is still one row per key. */
  lemma UpsertKeepsOneRow(rows: seq<UserKey>, item: UserKey)
    requires OneRowPerKey(rows)
    ensures UpsertKey(rows, item).Ok?
    ensures var rows' := UpsertKey(rows, item).value;
            && OneRowPerKey(rows')
            && forall id :: GetByKeyId(rows', id) == if id == item.keyId then Some(item) else GetByKeyId(rows, id)
  {
    GetIsFirst(rows, item.keyId);
    CountInUnique(rows, item.keyId);
    var rows' := UpsertKey(rows, item).value;
    if GetByKeyId(rows, item.keyId).Some? {
      assert forall i :: 0 <= i < |rows| ==> rows'[i].keyId == rows[i].keyId;
    }
    forall id ensures GetByKeyId(rows', id) == if id == item.keyId then Some(item) else GetByKeyId(rows, id) {
      UpsertLookup(rows, rows', item, id);
    }
  }

  lemma UpsertLookup(rows: seq<UserKey>, rows': seq<UserKey>, item: UserKey, id: string)
    requires OneRowPerKey(rows) && OneRowPerKey(rows')
    requires (rows' == Overwrite(rows, item) && GetByKeyId(rows, item.keyId).Some?) || (rows' == rows + [item] && GetByKeyId(rows, item.keyId) == None)
    ensures GetByKeyId(rows', id) == if id == item.keyId then Some(item) else GetByKeyId(rows, id)
  {
    GetIsFirst(rows, item.keyId);
    GetIsFirst(rows, id);
    GetIsFirst(rows', id);
    if id == item.keyId {
      var i :| 0 <= i < |rows'| && rows'[i] == item;
      GetInUnique(rows', i);
    } else if GetByKeyId(rows, id).Some? {
      var i :| 0 <= i < |rows| && rows[i] == GetByKeyId(rows, id).value && rows[i].keyId == id;
      assert rows'[i] == rows[i];
      GetInUnique(rows', i);
    }
  }

  /** Should two rows have the key, an upsert is refused: it would make their primary keys equal. */
  lemma TwoRowsAreRefused(rows: seq<UserKey>, item: UserKey, i: nat, j: nat)
    requires i < j < |rows| && rows[i].keyId == item.keyId == rows[j].keyId
    ensures UpsertKey(rows, item) == Err(UniqueViolation)
  {
    GetIsFirst(rows, item.keyId);
    TwoRowsCount(rows, item.keyId, i, j);
  }

  lemma {:induction false} TwoRowsCount(rows: seq<UserKey>, id: string, i: nat, j: nat)
    requires i < j < |rows| && rows[i].keyId == id == rows[j].keyId
    ensures CountKey(rows, id) >= 2
  {
    if i > 0 {
      TwoRowsCount(rows[1..], id, i - 1, j - 1);
    } else {
      OneRowCounts(rows[1..], id, j - 1);
    }
  }

  lemma {:induction false} OneRowCounts(rows: seq<UserKey>, id: string, j: nat)
    requires j < |rows| && rows[j].keyId == id
    ensures CountKey(rows, id) >= 1
  {
    if j > 0 {
      OneRowCounts(rows[1..], id, j - 1);
    }
  }

  // ----- loading the server's keys

  /** The loop of `load_user_keys_from_server`: every key is stored under this user. */
  function StoreAll(rows: seq<UserKey>, ks: seq<UserKey>, userId: string): Result<seq<UserKey>, DbError>
    decreases |ks|
  {
    if ks == [] then Ok(rows)
    else
      match UpsertKey(rows, ks[0].(userId := userId))
      case Err(e) => Err(e)
      case Ok(rows') => StoreAll(rows', ks[1..], userId)
  }

  function LastWithId(ks: seq<UserKey>, id: string): Option<UserKey> {
    if ks == [] then None
    else if ks[|ks| - 1].keyId == id then Some(ks[|ks| - 1])
    else LastWithId(ks[..|ks| - 1], id)
  }

  lemma {:induction false} LastOfCons(k: UserKey, ks: seq<UserKey>, id: string)
    ensures LastWithId([k] + ks, id) ==
            if LastWithId(ks, id).Some? then LastWithId(ks, id) else if k.keyId == id then Some(k) else None
  {
    if ks != [] {
      assert ([k] + ks)[..|ks|] == [k] + ks[..|ks| - 1];
      LastOfCons(k, ks[..|ks| - 1], id);
    } else {
      assert ([k] + ks)[..0] == [];
    }
  }

  /** After a load every server key is stored under this user with the contents it had last in the list,
      even if another user owned it; rows of other keys are untouched. */
  lemma {:induction false} LoadStoresServerKeys(rows: seq<UserKey>, ks: seq<UserKey>, userId: string)
    requires OneRowPerKey(rows)
    ensures StoreAll(rows, ks, userId).Ok?
    ensures var rows' := StoreAll(rows, ks, userId).value;
            && OneRowPerKey(rows')
            && forall id :: GetByKeyId(rows', id) ==
                 if LastWithId(ks, id).Some? then Some(LastWithId(ks, id).value.(userId := userId)) else GetByKeyId(rows, id)
    decreases |ks|
  {
    if ks != [] {
      var item := ks[0].(userId := userId);
      UpsertKeepsOneRow(rows, item);
      LoadStoresServerKeys(UpsertKey(rows, item).value, ks[1..], userId);
      assert ks == [ks[0]] + ks[1..];
      forall id { LastOfCons(ks[0], ks[1..], id); }
    }
  }

  function UpsertAll(rows: seq<UserKey>, items: seq<UserKey>): Result<seq<UserKey>, DbError> {
    if items == [] then Ok(rows)
    else
      match UpsertAll(rows, items[..|items| - 1])
      case Err(e) => Err(e)
      case Ok(rows') => UpsertKey(rows', items[|items| - 1])
  }

  /** Upserts by any users: none fails, there is one row per key throughout, and a key's row is the last
      one given for it by anybody. */
  lemma {:induction false} UpsertRunsKeepOneRow(rows: seq<UserKey>, items: seq<UserKey>)
    requires OneRowPerKey(rows)
    ensures UpsertAll(rows, items).Ok?
    ensures var rows' := UpsertAll(rows, items).value;
            && OneRowPerKey(rows')
            && forall id :: GetByKeyId(rows', id) == if LastWithId(items, id).Some? then LastWithId(items, id) else GetByKeyId(rows, id)
    decreases |items|
  {
    if items != [] {
      UpsertRunsKeepOneRow(rows, items[..|items| - 1]);
      UpsertKeepsOneRow(UpsertAll(rows, items[..|items| - 1]).value, items[|items| - 1]);
    }
  }

  lemma {:induction false} OfUserMembers(rows: seq<UserKey>, userId: string, k: UserKey)
    ensures k in OfUser(rows, userId) <==> k in rows && k.userId == userId
  {
    if rows != [] {
      OfUserMembers(rows[1..], userId, k);
      assert rows == [rows[0]] + rows[1..];
    }
  }

  lemma InUnique(rows: seq<UserKey>, k: UserKey)
    requires OneRowPerKey(rows)
    ensures k in rows <==> GetByKeyId(rows, k.keyId) == Some(k)
  {
    GetIsFirst(rows, k.keyId);
    if k in rows {
      var i :| 0 <= i < |rows| && rows[i] == k;
      GetInUnique(rows, i);
    }
  }

  /** What a load does to the lists of all users: another user loses exactly the keys that the server now
      lists for this one; this user keeps the keys that the server does not list and has every listed key. */
  lemma LoadMovesListedKeys(rows: seq<UserKey>, ks: seq<UserKey>, userId: string, u: string, k: UserKey)
    requires OneRowPerKey(rows)
    ensures StoreAll(rows, ks, userId).Ok?
    ensures k in OfUser(StoreAll(rows, ks, userId).value, u) <==>
              if LastWithId(ks, k.keyId).Some? then u == userId && k == LastWithId(ks, k.keyId).value.(userId := userId)
              else k in OfUser(rows, u)
  {
    LoadStoresServerKeys(rows, ks, userId);
    var rows' := StoreAll(rows, ks, userId).value;
    InUnique(rows, k);
    InUnique(rows', k);
    OfUserMembers(rows, u, k);
    OfUserMembers(rows', u, k);
  }

  // ----- the provider

  datatype ProviderError = Database(error: DbError) | ServerFailed | NoUserKeysFound | DefaultKeyFailed

  function FindById(ks: seq<LockedKey>, id: string): Option<LockedKey> {
    if ks == [] then None else if ks[0].id == id then Some(ks[0]) else FindById(ks[1..], id)
  }

  function FindPrimary(ks: seq<LockedKey>): Option<LockedKey> {
    if ks == [] then None else if ks[0].primary then Some(ks[0]) else FindPrimary(ks[1..])
  }

  lemma {:induction false} FoundHasId(ks: seq<LockedKey>, id: string)
    ensures FindById(ks, id).Some? ==> FindById(ks, id).value.id == id && FindById(ks, id).value in ks
    ensures FindById(ks, id) == None <==> forall k :: k in ks ==> k.id != id
  {
    if ks != [] {
      FoundHasId(ks[1..], id);
      assert ks == [ks[0]] + ks[1..];
    }
  }

  class UserKeyDao {
    var rows: seq<UserKey>

    constructor ()
      ensures rows == []
    {
      rows := [];
    }

    method Upsert(item: UserKey) returns (r: Result<Option<UserKey>, DbError>)
      modifies this
      ensures match UpsertKey(old(rows), item)
              case Ok(rows') => rows == rows' && r == Ok(GetByKeyId(rows', item.keyId))
              case Err(e) => rows == old(rows) && r == Err(e)
    {
      var stored := if GetByKeyId(rows, item.keyId).Some? then UpdateKey(rows, item) else InsertKey(rows, item);
      match stored
      case Err(e) => r := Err(e);
      case Ok(rows') =>
        rows := rows';
        r := Ok(GetByKeyId(rows, item.keyId));
    }
  }

  /** The server as the provider sees it: what it will answer, and how often it was asked.  An answer may
      come without a key list. */
  class UsersClient {
    const answer: Option<Option<seq<UserKey>>>
    var calls: nat

    constructor (answer: Option<Option<seq<UserKey>>>)
      ensures this.answer == answer && calls == 0
    {
      this.answer, calls := answer, 0;
    }

    method GetUserInfo() returns (r: Option<Option<seq<UserKey>>>)
      modifies this
      ensures r == answer && calls == old(calls) + 1
    {
      calls := calls + 1;
      r := answer;
    }
  }

  class UserKeysProvider {
    const userId: string
    const dao: UserKeyDao
    const client: UsersClient

    constructor (userId: string, dao: UserKeyDao, client: UsersClient)
      ensures this.userId == userId && this.dao == dao && this.client == client
    {
      this.userId, this.dao, this.client := userId, dao, client;
    }

    method GetUserKeysFromDb() returns (r: Result<seq<LockedKey>, ProviderError>)
      ensures r == if OfUser(dao.rows, userId) == [] then Err(NoUserKeysFound) else Ok(AllLocked(OfUser(dao.rows, userId)))
    {
      var found := OfUser(dao.rows, userId);
      r := if found == [] then Err(NoUserKeysFound) else Ok(AllLocked(found));
    }

    method LoadUserKeysFromServer() returns (r: Result<seq<LockedKey>, ProviderError>)
      modifies dao, client
      ensures client.calls == old(client.calls) + 1
      ensures OneRowPerKey(old(dao.rows)) ==>
                && r == LoadResult(client.answer)
                && dao.rows == LoadedRows(old(dao.rows), client.answer, userId)
                && OneRowPerKey(dao.rows)
    {
      var info := client.GetUserInfo();
      if info == None {
        return Err(ServerFailed);
      }
      if info.value == None {
        return Err(NoUserKeysFound);
      }
      var ks := info.value.value;
      for i := 0 to |ks|
        invariant client.calls == old(client.calls) + 1
        invariant OneRowPerKey(old(dao.rows)) ==> OneRowPerKey(dao.rows)
        invariant StoreAll(old(dao.rows), ks, userId) == StoreAll(dao.rows, ks[i..], userId)
      {
        assert ks[i..][0] == ks[i] && ks[i..][1..] == ks[i + 1..];
        if OneRowPerKey(dao.rows) {
          UpsertKeepsOneRow(dao.rows, ks[i].(userId := userId));
        }
        var stored := dao.Upsert(ks[i].(userId := userId));
        if stored.Err? {
          return Err(Database(stored.error));
        }
      }
      r := Ok(AllLocked(ks));
    }

    /** `default_` is the answer of the secure store.  The server is asked only when the database holds keys
        of this user but not the one requested. */
    method GetUserKey(id: string, default_: Option<LockedKey>) returns (r: Result<LockedKey, ProviderError>)
      requires OneRowPerKey(dao.rows)
      modifies dao, client
      ensures r == Resolve(OfUser(old(dao.rows), userId), client.answer, default_, ById(id))
      ensures client.calls == old(client.calls) + (if AsksServer(OfUser(old(dao.rows), userId), ById(id)) then 1 else 0)
      ensures dao.rows == if AsksServer(OfUser(old(dao.rows), userId), ById(id)) then LoadedRows(old(dao.rows), client.answer, userId) else old(dao.rows)
      ensures OneRowPerKey(dao.rows)
    {
      var keys := GetUserKeysFromDb();
      if keys.Err? {
        return Err(keys.error);
      }
      var found := FindById(keys.value, id);
      if found.Some? {
        return Ok(found.value);
      }
      var loaded := LoadUserKeysFromServer();
      if loaded.Err? {
        return Err(loaded.error);
      }
      found := FindById(loaded.value, id);
      if found.Some? {
        return Ok(found.value);
      }
      return if default_.Some? then Ok(default_.value) else Err(DefaultKeyFailed);
    }

    method GetPrimaryKey(default_: Option<LockedKey>) returns (r: Result<LockedKey, ProviderError>)
      requires OneRowPerKey(dao.rows)
      modifies dao, client
      ensures r == Resolve(OfUser(old(dao.rows), userId), client.answer, default_, FindPrimary)
      ensures client.calls == old(client.calls) + (if AsksServer(OfUser(old(dao.rows), userId), FindPrimary) then 1 else 0)
      ensures dao.rows == if AsksServer(OfUser(old(dao.rows), userId), FindPrimary) then LoadedRows(old(dao.rows), client.answer, userId) else old(dao.rows)
      ensures OneRowPerKey(dao.rows)
    {
      var keys := GetUserKeysFromDb();
      if keys.Err? {
        return Err(keys.error);
      }
      var found := FindPrimary(keys.value);
      if found.Some? {
        return Ok(found.value);
      }
      var loaded := LoadUserKeysFromServer();
      if loaded.Err? {
        return Err(loaded.error);
      }
      found := FindPrimary(loaded.value);
      if found.Some? {
        return Ok(found.value);
      }
      return if default_.Some? then Ok(default_.value) else Err(DefaultKeyFailed);
    }

    /** The list, unlike a single key, is fetched from the server when the database holds nothing. */
    method GetUserKeys() returns (r: Result<seq<LockedKey>, ProviderError>)
      requires OneRowPerKey(dao.rows)
      modifies dao, client
      ensures r == if OfUser(old(dao.rows), userId) != [] then Ok(AllLocked(OfUser(old(dao.rows), userId))) else LoadResult(client.answer)
      ensures client.calls == old(client.calls) + (if OfUser(old(dao.rows), userId) == [] then 1 else 0)
      ensures dao.rows == if OfUser(old(dao.rows), userId) == [] then LoadedRows(old(dao.rows), client.answer, userId) else old(dao.rows)
    {
      var keys := GetUserKeysFromDb();
      if keys.Ok? {
        return keys;
      }
      r := LoadUserKeysFromServer();
    }
  }

  lemma {:induction false} FoundIsPrimary(ks: seq<LockedKey>)
    ensures FindPrimary(ks).Some? ==> FindPrimary(ks).value.primary && FindPrimary(ks).value in ks
    ensures FindPrimary(ks) == None <==> forall k :: k in ks ==> !k.primary
  {
    if ks != [] {
      FoundIsPrimary(ks[1..]);
      assert ks == [ks[0]] + ks[1..];
    }
  }

  function LoadResult(answer: Option<Option<seq<UserKey>>>): Result<seq<LockedKey>, ProviderError> {
    match answer
    case None => Err(ServerFailed)
    case Some(None) => Err(NoUserKeysFound)
    case Some(Some(ks)) => Ok(AllLocked(ks))
  }

  function LoadedRows(rows: seq<UserKey>, answer: Option<Option<seq<UserKey>>>, userId: string): seq<UserKey> {
    match answer
    case Some(Some(ks)) => (match StoreAll(rows, ks, userId) case Ok(rows') => rows' case Err(_) => rows)
    case _ => rows
  }

  function ById(id: string): seq<LockedKey> -> Option<LockedKey> {
    ks => FindById(ks, id)
  }

  predicate AsksServer(mine: seq<UserKey>, pick: seq<LockedKey> -> Option<LockedKey>) {
    mine != [] && pick(AllLocked(mine)) == None
  }

  /** The fallback chain shared by the two single-key getters. */
  function Resolve(
    mine: seq<UserKey>, answer: Option<Option<seq<UserKey>>>, default_: Option<LockedKey>,
    pick: seq<LockedKey> -> Option<LockedKey>): Result<LockedKey, ProviderError>
  {
    if mine == [] then Err(NoUserKeysFound)
    else if pick(AllLocked(mine)).Some? then Ok(pick(AllLocked(mine)).value)
    else
      match LoadResult(answer)
      case Err(e) => Err(e)
      case Ok(ks) =>
        if pick(ks).Some? then Ok(pick(ks).value)
        else if default_.Some? then Ok(default_.value)
        else Err(DefaultKeyFailed)
  }

  /** A key that is returned has the requested id, unless neither the database nor the server has that id
      and the default key stands in for it; with an empty database no key is returned at all. */
  lemma ReturnedKeyHasTheId(mine: seq<UserKey>, answer: Option<Option<seq<UserKey>>>, default_: Option<LockedKey>, id: string)
    ensures Resolve(mine, answer, default_, ById(id)).Ok? ==>
              var key := Resolve(mine, answer, default_, ById(id)).value;
              || (key.id == id && mine != [])
              || (&& default_ == Some(key) && answer.Some? && answer.value.Some?
                  && (forall k :: k in mine ==> k.keyId != id) && (forall k :: k in answer.value.value ==> k.keyId != id))
    ensures mine == [] ==> Resolve(mine, answer, default_, ById(id)) == Err(NoUserKeysFound)
  {
    FoundHasId(AllLocked(mine), id);
    LockedMembers(mine, id);
    if answer.Some? && answer.value.Some? {
      FoundHasId(AllLocked(answer.value.value), id);
      LockedMembers(answer.value.value, id);
    }
  }

  /** The same for the primary key. */
  lemma ReturnedKeyIsPrimary(mine: seq<UserKey>, answer: Option<Option<seq<UserKey>>>, default_: Option<LockedKey>)
    ensures Resolve(mine, answer, default_, FindPrimary).Ok? ==>
              var key := Resolve(mine, answer, default_, FindPrimary).value;
              || (key.primary && SomePrimary(mine, key))
              || (key.primary && mine != [] && answer.Some? && answer.value.Some? && SomePrimary(answer.value.value, key))
              || (&& default_ == Some(key) && answer.Some? && answer.value.Some?
                  && (forall k :: k in mine ==> k.body.primary != 1) && (forall k :: k in answer.value.value ==> k.body.primary != 1))
  {
    PrimaryAmongLocked(mine);
    if answer.Some? && answer.value.Some? {
      PrimaryAmongLocked(answer.value.value);
    }
  }

  /** The key has the id and the private key of a row marked primary. */
  ghost predicate SomePrimary(ks: seq<UserKey>, key: LockedKey) {
    exists k :: k in ks && k.body.primary == 1 && k.keyId == key.id && k.body.privateKey == key.privateKey
  }

  lemma PrimaryAmongLocked(ks: seq<UserKey>)
    ensures var found := FindPrimary(AllLocked(ks));
            if found.Some? then found.value.primary && SomePrimary(ks, found.value) else forall k :: k in ks ==> k.body.primary != 1
  {
    var ls := AllLocked(ks);
    FoundIsPrimary(ls);
    if FindPrimary(ls).Some? {
      var i :| 0 <= i < |ls| && ls[i] == FindPrimary(ls).value;
      assert ks[i] in ks;
    } else {
      assert forall i :: 0 <= i < |ks| ==> ls[i] in ls && ls[i] == ToLocked(ks[i]);
    }
  }

  /** The key as the rest of the program sees it has the fields of the row, and counts as active. */
  predicate Presents(key: LockedKey, row: UserKey) {
    && key.id == row.keyId && key.version == row.body.version && (key.primary <==> row.body.primary == 1) && key.active
    && key.privateKey == row.body.privateKey && key.token == row.body.token
    && key.recoverySecret == row.body.recoverySecret && key.recoverySecretSignature == row.body.recoverySecretSignature
  }

  /** A list of rows is presented row by row, in order. */
  lemma AllPresented(ks: seq<UserKey>)
    ensures |AllLocked(ks)| == |ks| && forall i :: 0 <= i < |ks| ==> Presents(AllLocked(ks)[i], ks[i])
  {
  }

  ghost predicate FirstWithId(ks: seq<UserKey>, id: string, i: nat) {
    i < |ks| && ks[i].keyId == id && forall j :: 0 <= j < i ==> ks[j].keyId != id
  }

  ghost predicate FirstPrimary(ks: seq<UserKey>, i: nat) {
    i < |ks| && ks[i].body.primary == 1 && forall j :: 0 <= j < i ==> ks[j].body.primary != 1
  }

  lemma {:induction false} FindByIdIsFirst(ks: seq<UserKey>, id: string, i: nat)
    requires FirstWithId(ks, id, i)
    ensures FindById(AllLocked(ks), id) == Some(ToLocked(ks[i]))
    decreases i
  {
    if i > 0 {
      assert AllLocked(ks)[1..] == AllLocked(ks[1..]);
      FindByIdIsFirst(ks[1..], id, i - 1);
    }
  }

  lemma {:induction false} FindPrimaryIsFirst(ks: seq<UserKey>, i: nat)
    requires FirstPrimary(ks, i)
    ensures FindPrimary(AllLocked(ks)) == Some(ToLocked(ks[i]))
    decreases i
  {
    if i > 0 {
      assert AllLocked(ks)[1..] == AllLocked(ks[1..]);
      FindPrimaryIsFirst(ks[1..], i - 1);
    }
  }

  /** Exactly what `get_user_key` answers: nothing without rows of the user; the user's first row with the id; else the
      server's first key with the id; else the default key, or an error if there is none; and the server's failure if
      it fails. */
  lemma GetUserKeyExactly(mine: seq<UserKey>, answer: Option<Option<seq<UserKey>>>, default_: Option<LockedKey>, id: string)
    ensures var r := Resolve(mine, answer, default_, ById(id));
            && (mine == [] ==> r == Err(NoUserKeysFound))
            && (forall i: nat :: FirstWithId(mine, id, i) ==> r.Ok? && Presents(r.value, mine[i]))
            && (mine != [] && (forall k :: k in mine ==> k.keyId != id) ==>
                  match answer
                  case None => r == Err(ServerFailed)
                  case Some(None) => r == Err(NoUserKeysFound)
                  case Some(Some(ks)) =>
                    && (forall i: nat :: FirstWithId(ks, id, i) ==> r.Ok? && Presents(r.value, ks[i]))
                    && ((forall k :: k in ks ==> k.keyId != id) ==>
                          r == if default_.Some? then Ok(default_.value) else Err(DefaultKeyFailed)))
  {
    FoundHasId(AllLocked(mine), id);
    LockedMembers(mine, id);
    forall i: nat | FirstWithId(mine, id, i) ensures FindById(AllLocked(mine), id) == Some(ToLocked(mine[i])) {
      FindByIdIsFirst(mine, id, i);
    }
    if answer.Some? && answer.value.Some? {
      var ks := answer.value.value;
      FoundHasId(AllLocked(ks), id);
      LockedMembers(ks, id);
      forall i: nat | FirstWithId(ks, id, i) ensures FindById(AllLocked(ks), id) == Some(ToLocked(ks[i])) {
        FindByIdIsFirst(ks, id, i);
      }
    }
  }


  /** The same for `get_primary_key`. */
  lemma GetPrimaryKeyExactly(mine: seq<UserKey>, answer: Option<Option<seq<UserKey>>>, default_: Option<LockedKey>)
    ensures var r := Resolve(mine, answer, default_, FindPrimary);
            && (mine == [] ==> r == Err(NoUserKeysFound))
            && (forall i: nat :: FirstPrimary(mine, i) ==> r.Ok? && Presents(r.value, mine[i]))
            && (mine != [] && (forall k :: k in mine ==> k.body.primary != 1) ==>
                  match answer
                  case None => r == Err(ServerFailed)
                  case Some(None) => r == Err(NoUserKeysFound)
                  case Some(Some(ks)) =>
                    && (forall i: nat :: FirstPrimary(ks, i) ==> r.Ok? && Presents(r.value, ks[i]))
                    && ((forall k :: k in ks ==> k.body.primary != 1) ==>
                          r == if default_.Some? then Ok(default_.value) else Err(DefaultKeyFailed)))
  {
    PrimaryAmongLocked(mine);
    forall i: nat | FirstPrimary(mine, i) ensures FindPrimary(AllLocked(mine)) == Some(ToLocked(mine[i])) {
      FindPrimaryIsFirst(mine, i);
    }
    if answer.Some? && answer.value.Some? {
      var ks := answer.value.value;
      PrimaryAmongLocked(ks);
      forall i: nat | FirstPrimary(ks, i) ensures FindPrimary(AllLocked(ks)) == Some(ToLocked(ks[i])) {
        FindPrimaryIsFirst(ks, i);
      }
    }
  }


  /** The user's rows in table order, and nobody else's. */
  lemma {:induction false} OfUserSplits(a: seq<UserKey>, b: seq<UserKey>, userId: string)
    ensures OfUser(a + b, userId) == OfUser(a, userId) + OfUser(b, userId)
    decreases |a|
  {
    if a == [] {
      assert a + b == b;
    } else {
      var tail := a[1..];
      assert (a + b)[1..] == tail + b && (a + b)[0] == a[0];
      OfUserSplits(tail, b, userId);
      var own := if a[0].userId == userId then [a[0]] else [];
      assert own + (OfUser(tail, userId) + OfUser(b, userId)) == own + OfUser(tail, userId) + OfUser(b, userId);
    }
  }

  lemma OfUserOne(k: UserKey, userId: string)
    ensures OfUser([k], userId) == if k.userId == userId then [k] else []
  {
    assert [k][1..] == [];
  }

  /** A key that one load brought is served from the database afterwards, with the contents the server sent:
      the server is not asked for it again, whatever it would now answer. */
  lemma LoadedKeyIsServedLocally(
    rows: seq<UserKey>, ks: seq<UserKey>, userId: string, id: string,
    answer: Option<Option<seq<UserKey>>>, default_: Option<LockedKey>)
    requires OneRowPerKey(rows) && LastWithId(ks, id).Some?
    ensures StoreAll(rows, ks, userId).Ok?
    ensures var mine := OfUser(StoreAll(rows, ks, userId).value, userId);
            && !AsksServer(mine, ById(id))
            && Resolve(mine, answer, default_, ById(id)) == Ok(ToLocked(LastWithId(ks, id).value))
  {
    LoadStoresServerKeys(rows, ks, userId);
    var mine := OfUser(StoreAll(rows, ks, userId).value, userId);
    var stored := LastWithId(ks, id).value.(userId := userId);
    LastHasId(ks, id);
    LoadMovesListedKeys(rows, ks, userId, userId, stored);
    FoundHasId(AllLocked(mine), id);
    LockedMembers(mine, id);
    var key := FindById(AllLocked(mine), id).value;
    var i :| 0 <= i < |AllLocked(mine)| && AllLocked(mine)[i] == key;
    LoadMovesListedKeys(rows, ks, userId, userId, mine[i]);
  }

  lemma {:induction false} LastHasId(ks: seq<UserKey>, id: string)
    ensures LastWithId(ks, id).Some? ==> LastWithId(ks, id).value.keyId == id
  {
    if ks != [] {
      LastHasId(ks[..|ks| - 1], id);
    }
  }

  lemma LockedMembers(ks: seq<UserKey>, id: string)
    ensures (forall k :: k in AllLocked(ks) ==> k.id != id) <==> (forall k :: k in ks ==> k.keyId != id)
  {
    forall k | k in ks ensures ToLocked(k) in AllLocked(ks) {
      var i :| 0 <= i < |ks| && ks[i] == k;
      assert AllLocked(ks)[i] == ToLocked(k);
    }
    forall k | k in AllLocked(ks) ensures exists u :: u in ks && u.keyId == k.id {
      var i :| 0 <= i < |AllLocked(ks)| && AllLocked(ks)[i] == k;
      assert ks[i] in ks;
    }
  }
}
