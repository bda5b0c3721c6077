/** The wallet-key provider used by one caller: memory, then the secure store, then the server. */
module WalletKeys {
  import opened Wrappers

  datatype ApiWalletKey = ApiWalletKey(walletId: string, walletKey: string, signature: string)

  type Keys = seq<ApiWalletKey>

  datatype ProviderError = WalletKeyNotFound | WalletKeyEmpty | CallbackNotSet | ServerFailed

  // ----- looking keys up

  /** `iter().find`: the first key of the wallet. */
  function First(keys: Keys, id: string): Option<ApiWalletKey> {
    if keys == [] then None
    else if keys[0].walletId == id then Some(keys[0])
    else First(keys[1..], id)
  }

  /** The last key of the wallet, the one that survives insertion into a map. */
  function Last(keys: Keys, id: string): Option<ApiWalletKey> {
    if keys == [] then None
    else if keys[|keys| - 1].walletId == id then Some(keys[|keys| - 1])
    else Last(keys[..|keys| - 1], id)
  }

  function InMemory(memory: Option<Keys>, id: string): Option<ApiWalletKey> {
    if memory == None then None else First(memory.value, id)
  }

  function Contents(memory: Option<Keys>): Keys {
    if memory == None then [] else memory.value
  }

  lemma {:induction false} FirstIsFound(keys: Keys, id: string)
    ensures First(keys, id).Some? ==> First(keys, id).value in keys && First(keys, id).value.walletId == id
    ensures First(keys, id) == None <==> forall k :: k in keys ==> k.walletId != id
  {
    if keys != [] {
      FirstIsFound(keys[1..], id);
      assert keys == [keys[0]] + keys[1..];
    }
  }

  lemma {:induction false} LastIsFound(keys: Keys, id: string)
    ensures Last(keys, id).Some? ==> Last(keys, id).value in keys && Last(keys, id).value.walletId == id
    ensures Last(keys, id) == None <==> forall k :: k in keys ==> k.walletId != id
  {
    if keys != [] {
      LastIsFound(keys[..|keys| - 1], id);
      assert keys == keys[..|keys| - 1] + [keys[|keys| - 1]];
    }
  }

  // ----- merging

  /** The hash map after inserting the keys of a list in order. */
  function Inserted(m: map<string, ApiWalletKey>, keys: Keys): map<string, ApiWalletKey> {
    if keys == [] then m
    else Inserted(m, keys[..|keys| - 1])[keys[|keys| - 1].walletId := keys[|keys| - 1]]
  }

  function Merged(old_: Keys, new_: Keys): map<string, ApiWalletKey> {
    Inserted(Inserted(map[], old_), new_)
  }

  /** `values().collect()` in whatever order the hash map has. */
  ghost predicate IsValues(keys: Keys, m: map<string, ApiWalletKey>) {
    && (forall i :: 0 <= i < |keys| ==> keys[i].walletId in m && m[keys[i].walletId] == keys[i])
    && (forall i, j :: 0 <= i < j < |keys| ==> keys[i].walletId != keys[j].walletId)
    && (forall id :: id in m ==> m[id] in keys && m[id].walletId == id)
  }

  lemma {:induction false} InsertedLookup(m: map<string, ApiWalletKey>, keys: Keys, id: string)
    ensures id in Inserted(m, keys) <==> id in m || Last(keys, id).Some?
    ensures id in Inserted(m, keys) ==> Inserted(m, keys)[id] == if Last(keys, id).Some? then Last(keys, id).value else m[id]
  {
    if keys != [] {
      InsertedLookup(m, keys[..|keys| - 1], id);
    }
  }

  /** Where a lookup lands after a merge: the last new key of the wallet, or else the last old one. */
  function MergedLookup(old_: Keys, new_: Keys, id: string): Option<ApiWalletKey> {
    if Last(new_, id).Some? then Last(new_, id) else Last(old_, id)
  }

  /** Whatever order the hash map yields, a merge leaves each wallet once in memory, and lookups find
      the last new key of the wallet, or else its last old one. */
  lemma MergeLookup(old_: Keys, new_: Keys, memory: Keys, id: string)
    requires IsValues(memory, Merged(old_, new_))
    ensures First(memory, id) == Last(memory, id) == MergedLookup(old_, new_, id)
    ensures forall i, j :: 0 <= i < j < |memory| ==> memory[i].walletId != memory[j].walletId
  {
    InsertedLookup(map[], old_, id);
    InsertedLookup(Inserted(map[], old_), new_, id);
    FirstIsFound(memory, id);
    LastIsFound(memory, id);
    var m := Merged(old_, new_);
    if id in m {
      LastIsFound(old_, id);
      LastIsFound(new_, id);
      UniqueFound(memory, m[id]);
    } else {
      assert forall k :: k in memory ==> k.walletId != id;
    }
  }

  lemma UniqueFound(memory: Keys, key: ApiWalletKey)
    requires key in memory && forall i, j :: 0 <= i < j < |memory| ==> memory[i].walletId != memory[j].walletId
    ensures First(memory, key.walletId) == Last(memory, key.walletId) == Some(key)
  {
    FirstIsFound(memory, key.walletId);
    LastIsFound(memory, key.walletId);
    var i :| 0 <= i < |memory| && memory[i] == key;
    var f, l := First(memory, key.walletId).value, Last(memory, key.walletId).value;
    var j :| 0 <= j < |memory| && memory[j] == f;
    var k :| 0 <= k < |memory| && memory[k] == l;
    assert i == j == k;
  }

  // ----- the outcome of one lookup

  /** What the secure store and the server answer, should they be asked, and whether saving works. */
  datatype World = World(store: Result<Keys, ProviderError>, server: Result<Keys, ProviderError>, canSave: bool)

  /** The result of `get_locked_wallet_key` by one caller. */
  function Outcome(memory: Option<Keys>, w: World, id: string): Result<ApiWalletKey, ProviderError> {
    if InMemory(memory, id).Some? then Ok(InMemory(memory, id).value)
    else if w.store.Err? then Err(w.store.error)
    else if First(w.store.value, id).Some? then Ok(First(w.store.value, id).value)
    else if w.server.Err? then Err(w.server.error)
    else if w.server.value == [] then Err(WalletKeyEmpty)
    else if !w.canSave then Err(CallbackNotSet)
    else
      match Last(w.server.value, id)
      case Some(key) => Ok(key)
      case None => Err(WalletKeyNotFound)
  }

  /** A failed store or server is not reported as a missing key: `WalletKeyNotFound` means that memory,
      store and server all answered and none of them has the wallet. */
  lemma NotFoundExactly(memory: Option<Keys>, w: World, id: string)
    requires w.store.Err? ==> w.store.error != WalletKeyNotFound
    requires w.server.Err? ==> w.server.error != WalletKeyNotFound
    ensures Outcome(memory, w, id) == Err(WalletKeyNotFound) <==>
            && (forall k :: k in Contents(memory) ==> k.walletId != id)
            && w.store.Ok? && (forall k :: k in w.store.value ==> k.walletId != id)
            && w.server.Ok? && w.server.value != [] && (forall k :: k in w.server.value ==> k.walletId != id)
            && w.canSave
    ensures Outcome(memory, w, id).Ok? ==>
              var key := Outcome(memory, w, id).value;
              key.walletId == id && (key in Contents(memory) || (w.store.Ok? && key in w.store.value) || (w.server.Ok? && key in w.server.value))
  {
    FirstIsFound(Contents(memory), id);
    if w.store.Ok? {
      FirstIsFound(w.store.value, id);
    }
    if w.server.Ok? {
      LastIsFound(w.server.value, id);
    }
  }

  ghost predicate FirstOfWallet(keys: Keys, id: string, i: nat) {
    i < |keys| && keys[i].walletId == id && forall j :: 0 <= j < i ==> keys[j].walletId != id
  }

  ghost predicate LastOfWallet(keys: Keys, id: string, i: nat) {
    i < |keys| && keys[i].walletId == id && forall j :: i < j < |keys| ==> keys[j].walletId != id
  }

  lemma {:induction false} FirstIsAt(keys: Keys, id: string, i: nat)
    requires FirstOfWallet(keys, id, i)
    ensures First(keys, id) == Some(keys[i])
    decreases i
  {
    if i > 0 {
      FirstIsAt(keys[1..], id, i - 1);
    }
  }

  lemma {:induction false} LastIsAt(keys: Keys, id: string, i: nat)
    requires LastOfWallet(keys, id, i)
    ensures Last(keys, id) == Some(keys[i])
    decreases |keys|
  {
    if i < |keys| - 1 {
      LastIsAt(keys[..|keys| - 1], id, i);
    }
  }

  ghost predicate NoneOfWallet(keys: Keys, id: string) {
    forall k :: k in keys ==> k.walletId != id
  }

  /** Exactly what a lookup answers: the first key of the wallet in memory; else the store's failure or its first key of
      the wallet; else the server's failure, an empty server list or a failed save as errors; else the server's last
      key of the wallet, and only then "not found". */
  lemma LookupAnswers(memory: Option<Keys>, w: World, id: string)
    ensures var r := Outcome(memory, w, id);
            && (forall i: nat :: FirstOfWallet(Contents(memory), id, i) ==> r == Ok(Contents(memory)[i]))
            && (NoneOfWallet(Contents(memory), id) ==>
                  match w.store
                  case Err(e) => r == Err(e)
                  case Ok(stored) =>
                    && (forall i: nat :: FirstOfWallet(stored, id, i) ==> r == Ok(stored[i]))
                    && (NoneOfWallet(stored, id) ==>
                          match w.server
                          case Err(e) => r == Err(e)
                          case Ok(sent) =>
                            && (sent == [] ==> r == Err(WalletKeyEmpty))
                            && (sent != [] && !w.canSave ==> r == Err(CallbackNotSet))
                            && (sent != [] && w.canSave ==>
                                  && (forall i: nat :: LastOfWallet(sent, id, i) ==> r == Ok(sent[i]))
                                  && (NoneOfWallet(sent, id) ==> r == Err(WalletKeyNotFound)))))
  {
    FirstIsFound(Contents(memory), id);
    forall i: nat | FirstOfWallet(Contents(memory), id, i) ensures First(Contents(memory), id) == Some(Contents(memory)[i]) {
      FirstIsAt(Contents(memory), id, i);
    }
    if w.store.Ok? {
      FirstIsFound(w.store.value, id);
      forall i: nat | FirstOfWallet(w.store.value, id, i) ensures First(w.store.value, id) == Some(w.store.value[i]) {
        FirstIsAt(w.store.value, id, i);
      }
    }
    if w.server.Ok? {
      LastIsFound(w.server.value, id);
      forall i: nat | LastOfWallet(w.server.value, id, i) ensures Last(w.server.value, id) == Some(w.server.value[i]) {
        LastIsAt(w.server.value, id, i);
      }
    }
  }

  // ----- the provider

  /** The callbacks Dart has registered, and the batches handed to the saving one. */
  class WalletKeySecureStore {
    var canGet: bool
    var canSave: bool
    var saved: seq<Keys>

    constructor ()
      ensures !canGet && !canSave && saved == []
    {
      canGet, canSave, saved := false, false, [];
    }

    method SetGetCallback()
      modifies this
      ensures canGet && canSave == old(canSave) && saved == old(saved)
    {
      canGet := true;
    }

    method SetSaveCallback()
      modifies this
      ensures canSave && canGet == old(canGet) && saved == old(saved)
    {
      canSave := true;
    }

    method Clear()
      modifies this
      ensures !canGet && !canSave && saved == old(saved)
    {
      canGet := false;
      canSave := false;
    }

    /** `reply` is what the callback answers. */
    method GetWalletKeys(reply: Keys) returns (r: Result<Keys, ProviderError>)
      ensures r == if canGet then Ok(reply) else Err(CallbackNotSet)
    {
      r := if canGet then Ok(reply) else Err(CallbackNotSet);
    }

    method SaveApiWalletKeys(keys: Keys) returns (r: Result<(), ProviderError>)
      modifies this
      ensures canGet == old(canGet) && canSave == old(canSave)
      ensures if canSave then r == Ok(()) && saved == old(saved) + [keys] else r == Err(CallbackNotSet) && saved == old(saved)
    {
      if canSave {
        saved := saved + [keys];
        r := Ok(());
      } else {
        r := Err(CallbackNotSet);
      }
    }
  }

  class WalletKeysProvider {
    const store: WalletKeySecureStore
    var walletKeys: Option<Keys>

    constructor (store: WalletKeySecureStore)
      ensures this.store == store && walletKeys == None
    {
      this.store := store;
      walletKeys := None;
    }

    method Clear()
      modifies this
      ensures walletKeys == None
    {
      walletKeys := None;
    }

    method FindFromMemory(id: string) returns (r: Option<ApiWalletKey>)
      ensures r == InMemory(walletKeys, id)
    {
      if walletKeys == None {
        return None;
      }
      var keys := walletKeys.value;
      for k := 0 to |keys|
        invariant First(keys, id) == First(keys[k..], id)
      {
        if keys[k].walletId == id {
          return Some(keys[k]);
        }
        assert keys[k..][1..] == keys[k + 1..];
      }
      return None;
    }

    method LoadWalletKeysFromStore(reply: Keys) returns (r: Result<Keys, ProviderError>)
      modifies this
      ensures r == if store.canGet then Ok(reply) else Err(CallbackNotSet)
      ensures walletKeys == if store.canGet then Some(reply) else old(walletKeys)
    {
      r := store.GetWalletKeys(reply);
      if r.Ok? {
        walletKeys := Some(r.value);
      }
    }

    /** Memory is merged before the store is asked to save, so it keeps the new keys even when saving fails. */
    method SaveApiWalletKeys(keys: Keys) returns (r: Result<(), ProviderError>)
      modifies this, store
      ensures store.canGet == old(store.canGet) && store.canSave == old(store.canSave)
      ensures keys == [] ==> r == Err(WalletKeyEmpty) && walletKeys == old(walletKeys) && store.saved == old(store.saved)
      ensures keys != [] ==>
                && walletKeys.Some? && IsValues(walletKeys.value, Merged(Contents(old(walletKeys)), keys))
                && r == (if store.canSave then Ok(()) else Err(CallbackNotSet))
                && store.saved == (if store.canSave then old(store.saved) + [keys] else old(store.saved))
    {
      if keys == [] {
        return Err(WalletKeyEmpty);
      }
      var merged: map<string, ApiWalletKey> := map[];
      if walletKeys.Some? {
        merged := InsertAll(merged, walletKeys.value);
      }
      merged := InsertAll(merged, keys);
      var values := CollectValues(merged, Contents(walletKeys), keys);
      walletKeys := Some(values);
      r := store.SaveApiWalletKeys(keys);
    }

    method InsertAll(m: map<string, ApiWalletKey>, keys: Keys) returns (r: map<string, ApiWalletKey>)
      ensures r == Inserted(m, keys)
    {
      r := m;
      for k := 0 to |keys|
        invariant r == Inserted(m, keys[..k])
      {
        r := r[keys[k].walletId := keys[k]];
        assert keys[..k + 1][..k] == keys[..k];
      }
      assert keys[..|keys|] == keys;
    }

    /** Draws the values in arbitrary order. */
    method CollectValues(m: map<string, ApiWalletKey>, ghost old_: Keys, ghost new_: Keys) returns (values: Keys)
      requires m == Merged(old_, new_)
      ensures IsValues(values, m)
    {
      forall id | id in m ensures m[id].walletId == id {
        InsertedLookup(map[], old_, id);
        InsertedLookup(Inserted(map[], old_), new_, id);
        LastIsFound(old_, id);
        LastIsFound(new_, id);
      }
      values := [];
      var rest := m.Keys;
      while rest != {}
        invariant rest <= m.Keys
        invariant forall i :: 0 <= i < |values| ==> values[i].walletId in m && values[i].walletId !in rest && m[values[i].walletId] == values[i]
        invariant forall i, j :: 0 <= i < j < |values| ==> values[i].walletId != values[j].walletId
        invariant forall id :: id in m && id !in rest ==> m[id] in values
        decreases |rest|
      {
        var id :| id in rest;
        values := values + [m[id]];
        rest := rest - {id};
      }
    }

    method FetchFromServer(server: Result<Keys, ProviderError>) returns (r: Result<(), ProviderError>)
      modifies this, store
      ensures store.canGet == old(store.canGet) && store.canSave == old(store.canSave)
      ensures match server
              case Err(e) => r == Err(e) && walletKeys == old(walletKeys) && store.saved == old(store.saved)
              case Ok(keys) =>
                if keys == [] then r == Err(WalletKeyEmpty) && walletKeys == old(walletKeys) && store.saved == old(store.saved)
                else
                  && walletKeys.Some? && IsValues(walletKeys.value, Merged(Contents(old(walletKeys)), keys))
                  && r == (if store.canSave then Ok(()) else Err(CallbackNotSet))
                  && store.saved == (if store.canSave then old(store.saved) + [keys] else old(store.saved))
    {
      if server.Err? {
        return Err(server.error);
      }
      r := SaveApiWalletKeys(server.value);
    }

    method Reset(server: Result<Keys, ProviderError>) returns (r: Result<(), ProviderError>)
      modifies this, store
      ensures server.Ok? && server.value != [] ==>
                walletKeys.Some? && forall id :: InMemory(walletKeys, id) == Last(server.value, id)
      ensures !(server.Ok? && server.value != []) ==>
                walletKeys == None && r == Err(if server.Err? then server.error else WalletKeyEmpty)
      ensures server.Ok? && server.value != [] ==> r == if old(store.canSave) then Ok(()) else Err(CallbackNotSet)
      ensures store.saved == if server.Ok? && server.value != [] && old(store.canSave) then old(store.saved) + [server.value] else old(store.saved)
    {
      Clear();
      r := FetchFromServer(server);
      if server.Ok? && server.value != [] {
        forall id ensures InMemory(walletKeys, id) == Last(server.value, id) {
          MergeLookup([], server.value, walletKeys.value, id);
        }
      }
    }

    /** A hit in memory changes nothing; otherwise memory becomes what the store holds, and if the wallet is
        not there either, what the store and then the server hold. */
    method GetLockedWalletKey(id: string, reply: Keys, server: Result<Keys, ProviderError>)
      returns (r: Result<ApiWalletKey, ProviderError>)
      modifies this, store
      ensures var w := World(if old(store.canGet) then Ok(reply) else Err(CallbackNotSet), server, old(store.canSave));
              r == Outcome(old(walletKeys), w, id)
      ensures InMemory(old(walletKeys), id).Some? ==> walletKeys == old(walletKeys) && store.saved == old(store.saved)
      ensures InMemory(old(walletKeys), id) == None && old(store.canGet) && First(reply, id).Some? ==>
                walletKeys == Some(reply) && store.saved == old(store.saved)
      ensures InMemory(old(walletKeys), id) == None && old(store.canGet) && First(reply, id) == None
              && server.Ok? && server.value != [] ==>
                walletKeys.Some? && forall k :: InMemory(walletKeys, k) == MergedLookup(reply, server.value, k)
      ensures InMemory(old(walletKeys), id) == None && !old(store.canGet) ==> walletKeys == old(walletKeys) && store.saved == old(store.saved)
      ensures (InMemory(old(walletKeys), id) == None && old(store.canGet) && First(reply, id) == None
               && !(server.Ok? && server.value != [])) ==>
                walletKeys == Some(reply) && store.saved == old(store.saved)
      ensures (InMemory(old(walletKeys), id) == None && old(store.canGet) && First(reply, id) == None
               && server.Ok? && server.value != []) ==>
                store.saved == if old(store.canSave) then old(store.saved) + [server.value] else old(store.saved)
    {
      var found := FindFromMemory(id);
      if found.Some? {
        return Ok(found.value);
      }
      var loaded := LoadWalletKeysFromStore(reply);
      if loaded.Err? {
        return Err(loaded.error);
      }
      found := FindFromMemory(id);
      if found.Some? {
        return Ok(found.value);
      }
      var fetched := FetchFromServer(server);
      if server.Ok? && server.value != [] {
        forall k ensures InMemory(walletKeys, k) == MergedLookup(reply, server.value, k) {
          MergeLookup(reply, server.value, walletKeys.value, k);
        }
        FirstIsFound(reply, id);
        LastIsFound(reply, id);
      }
      if fetched.Err? {
        return Err(fetched.error);
      }
      found := FindFromMemory(id);
      if found.Some? {
        return Ok(found.value);
      }
      return Err(WalletKeyNotFound);
    }
  }
}
