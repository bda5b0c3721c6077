/** Wallet secrets from creation to retrieval: the wallet key, what it encrypts, and the user keys it
    is locked to. */
module WalletSecrets {
  import opened Wrappers
  import opened CryptoTerms

  // ----- user keys

  /** A user key as the rest of the program uses it. */
  datatype LockedKey = LockedKey(
    id: string, version: nat, primary: bool, active: bool, privateKey: Text, token: Option<string>,
    recoverySecret: Option<string>, recoverySecretSignature: Option<string>)

  datatype UnlockedKey = UnlockedKey(id: string, material: Material)

  /** The key can be unlocked with the secret. */
  predicate Opens(k: LockedKey, secret: Secret) {
    k.privateKey.ArmoredKey? && k.privateKey.secret == secret
  }

  /** Keys that unlock, in order; inactive ones are passed over and failing ones are reported apart. */
  function Unlocked(keys: seq<LockedKey>, secret: Secret): seq<UnlockedKey> {
    if keys == [] then []
    else
      (if keys[0].active && Opens(keys[0], secret) then [UnlockedKey(keys[0].id, keys[0].privateKey.material)] else [])
      + Unlocked(keys[1..], secret)
  }

  function FailedCount(keys: seq<LockedKey>, secret: Secret): nat {
    if keys == [] then 0
    else (if keys[0].active && !Opens(keys[0], secret) then 1 else 0) + FailedCount(keys[1..], secret)
  }

  function Materials(keys: seq<UnlockedKey>): set<Material> { set k | k in keys :: k.material }

  // ----- the wallet key

  /** `UnlockedWalletKey`: the 32 octets of an AES-256 key. */
  type WalletKey = k: Octets | |k| == KEY_LENGTH witness seq(KEY_LENGTH, i => Byte(0))

  type Nonce = n: Octets | |n| == NONCE_LENGTH witness seq(NONCE_LENGTH, i => Byte(0))

  /** A nonce as the random generator draws it. */
  type RandomNonce = n: Octets | |n| == NONCE_LENGTH && (forall i :: 0 <= i < |n| ==> n[i].Byte?)
    witness seq(NONCE_LENGTH, i => Byte(0))

  const SIGNATURE_CONTEXT := "wallet.key"

  datatype LockedWalletKey = LockedWalletKey(encrypted: Text, signature: Text)

  /** The nonce goes in front of the ciphertext. */
  function Encrypt(key: WalletKey, nonce: Nonce, clear: Octets): Octets {
    nonce + Seal(key, nonce, clear)
  }

  function Decrypt(key: WalletKey, data: Octets): Result<Octets, CryptoError> {
    if |data| < NONCE_LENGTH then Err(InvalidDataSize)
    else
      match Open(key, data[..NONCE_LENGTH], data[NONCE_LENGTH..])
      case None => Err(AesGcm)
      case Some(clear) => Ok(clear)
  }

  /** Encrypts the key to a user key and signs it with the same one. */
  function LockWith(key: WalletKey, userKey: UnlockedKey): LockedWalletKey {
    LockedWalletKey(ArmoredMessage(userKey.material, key), ArmoredSignature(userKey.material, SIGNATURE_CONTEXT, key))
  }

  /** Tries all user keys for decryption and for verification.  A payload of the wrong length makes the
      program panic; here it is an error of its own. */
  function UnlockWith(locked: LockedWalletKey, userKeys: seq<UnlockedKey>): Result<WalletKey, CryptoError> {
    var ms := Materials(userKeys);
    if !(locked.encrypted.ArmoredMessage? && locked.encrypted.to in ms) then Err(Decryption)
    else if !(&& locked.signature.ArmoredSignature? && locked.signature.signer in ms
              && locked.signature.context == SIGNATURE_CONTEXT
              && locked.signature.payload == locked.encrypted.payload) then Err(SignatureVerify)
    else if |locked.encrypted.payload| != KEY_LENGTH then Err(InvalidKeyLength)
    else Ok(locked.encrypted.payload)
  }

  /** Decryption succeeds exactly on what this key has encrypted, and returns what was encrypted. */
  lemma DecryptInvertsEncrypt(key: WalletKey, data: Octets, clear: Octets)
    ensures Decrypt(key, data) == Ok(clear) <==> exists nonce: Nonce :: data == Encrypt(key, nonce, clear)
  {
    if Decrypt(key, data) == Ok(clear) {
      var nonce: Nonce := data[..NONCE_LENGTH];
      OpenInvertsSeal(key, nonce, data[NONCE_LENGTH..], clear);
      assert data == nonce + data[NONCE_LENGTH..];
      assert data == Encrypt(key, nonce, clear);
    }
    if nonce: Nonce :| data == Encrypt(key, nonce, clear) {
      assert data[..NONCE_LENGTH] == nonce && data[NONCE_LENGTH..] == Seal(key, nonce, clear);
      OpenInvertsSeal(key, nonce, data[NONCE_LENGTH..], clear);
    }
  }

  /** The layout on the wire: 12 octets of nonce, then the ciphertext with its 16-octet tag. */
  lemma EncryptLayout(key: WalletKey, nonce: Nonce, clear: Octets)
    ensures var data := Encrypt(key, nonce, clear);
            && |data| == 12 + |clear| + 16 && data[..12] == nonce
            && forall i :: 0 <= i < |clear| + 16 ==> data[12 + i] == Sealed(key, nonce, clear, i)
  {
  }

  /** Too short for a nonce is one error, everything else that cannot be opened another. */
  lemma DecryptFailsExactly(key: WalletKey, data: Octets)
    ensures Decrypt(key, data) == Err(InvalidDataSize) <==> |data| < 12
    ensures Decrypt(key, data) == Err(AesGcm) <==>
            |data| >= 12 && forall nonce: Nonce, clear :: data != Encrypt(key, nonce, clear)
    ensures Decrypt(key, data).Err? ==> Decrypt(key, data).error == InvalidDataSize || Decrypt(key, data).error == AesGcm
  {
    forall nonce: Nonce, clear | data == Encrypt(key, nonce, clear) ensures Decrypt(key, data) == Ok(clear) {
      DecryptInvertsEncrypt(key, data, clear);
    }
    if Decrypt(key, data).Ok? {
      DecryptInvertsEncrypt(key, data, Decrypt(key, data).value);
    }
  }

  /** A wallet key can be taken back by exactly the key sets that hold the user key it was locked to. */
  lemma UnlockInvertsLock(key: WalletKey, userKey: UnlockedKey, userKeys: seq<UnlockedKey>)
    ensures UnlockWith(LockWith(key, userKey), userKeys) ==
            if userKey.material in Materials(userKeys) then Ok(key) else Err(Decryption)
  {
  }

  /** The key was locked to one held user key and signed by a held one, possibly another, in the wallet-key context. */
  ghost predicate LockedAmong(locked: LockedWalletKey, ms: set<Material>, key: WalletKey) {
    exists to, signer :: to in ms && signer in ms
                         && locked == LockedWalletKey(ArmoredMessage(to, key), ArmoredSignature(signer, "wallet.key", key))
  }

  /** Unlocking succeeds exactly on keys that a held user key can decrypt and a held user key has signed, and
      returns the key that was locked. */
  lemma UnlocksExactly(locked: LockedWalletKey, userKeys: seq<UnlockedKey>, key: WalletKey)
    ensures UnlockWith(locked, userKeys) == Ok(key) <==> LockedAmong(locked, Materials(userKeys), key)
  {
    if UnlockWith(locked, userKeys) == Ok(key) {
      assert locked.encrypted == ArmoredMessage(locked.encrypted.to, key);
      assert locked.signature == ArmoredSignature(locked.signature.signer, "wallet.key", key);
    }
  }

  /** Why unlocking fails: the message is for none of the user keys, or it is and none of them has signed this
      payload as a wallet key, or one has and the payload is no wallet key. */
  lemma UnlockFailsExactly(locked: LockedWalletKey, userKeys: seq<UnlockedKey>)
    ensures var ms := Materials(userKeys);
            var readable := locked.encrypted.ArmoredMessage? && exists u :: u in userKeys && u.material == locked.encrypted.to;
            var signed := readable && (exists u ::
                            u in userKeys && locked.signature == ArmoredSignature(u.material, "wallet.key", locked.encrypted.payload));
            && (UnlockWith(locked, userKeys) == Err(Decryption) <==> !readable)
            && (UnlockWith(locked, userKeys) == Err(SignatureVerify) <==> readable && !signed)
            && (UnlockWith(locked, userKeys) == Err(InvalidKeyLength) <==> signed && |locked.encrypted.payload| != 32)
            && (UnlockWith(locked, userKeys).Ok? <==> signed && |locked.encrypted.payload| == 32)
  {
  }

  // ----- creating a wallet

  datatype CreateRequest = CreateRequest(
    name: Text, isImported: nat, hasPassphrase: bool, userKeyId: string,
    walletKey: Text, walletKeySignature: Text, mnemonic: Text, fingerprint: string)

  const DEFAULT_NAME: Octets :=
    [Byte(0x4D), Byte(0x79), Byte(0x20), Byte(0x57), Byte(0x61), Byte(0x6C), Byte(0x6C), Byte(0x65), Byte(0x74)]  // "My Wallet"

  /** A text of ASCII characters as octets. */
  function Ascii(text: string): Octets
    requires forall c :: c in text ==> c < 128 as char
  {
    seq(|text|, i requires 0 <= i < |text| => assert text[i] in text; Byte(text[i] as nat))
  }

  lemma DefaultNameSpelled()
    ensures DEFAULT_NAME == Ascii("My Wallet")
  {
  }

  function ChosenName(name: Utf8String): Octets {
    if name != [] then name else DEFAULT_NAME
  }

  /** What the random generator and the user-keys provider supply to one call. */
  datatype CreationWorld = CreationWorld(
    walletKey: WalletKey, mnemonicNonce: RandomNonce, nameNonce: RandomNonce,
    primary: Option<LockedKey>, passphrase: Option<Secret>)

  datatype CreationError = PrimaryKeyFailed | PassphraseFailed | NoUnlockedUserKeyFound

  /** The provider has the primary key and the passphrase, and the one unlocks with the other. */
  predicate CanCreate(w: CreationWorld) {
    w.primary.Some? && w.passphrase.Some? && w.primary.value.active && Opens(w.primary.value, w.passphrase.value)
  }

  function CreateWallet(
    w: CreationWorld, keyId: string, name: Utf8String, mnemonic: Utf8String, fingerprint: string,
    walletType: nat, hasPassphrase: bool): Result<CreateRequest, CreationError>
  {
    var encryptedMnemonic := Base64(Encrypt(w.walletKey, w.mnemonicNonce, mnemonic));
    var encryptedName := Base64(Encrypt(w.walletKey, w.nameNonce, ChosenName(name)));
    if w.primary == None then Err(PrimaryKeyFailed)
    else if w.passphrase == None then Err(PassphraseFailed)
    else
      var unlocked := Unlocked([w.primary.value], w.passphrase.value);
      if unlocked == [] then Err(NoUnlockedUserKeyFound)
      else
        var locked := LockWith(w.walletKey, unlocked[0]);
        Ok(CreateRequest(encryptedName, walletType, hasPassphrase, keyId, locked.encrypted, locked.signature,
                         encryptedMnemonic, fingerprint))
  }

  // ----- reading it back

  /** The parts of a wallet the server returns; a legacy wallet has its mnemonic in a PGP message too. */
  datatype StoredWallet = StoredWallet(name: Text, mnemonic: Text, key: LockedWalletKey, legacy: Option<nat>)

  /** `get_unlocked_wallet_key`. */
  function FetchKey(s: StoredWallet, keys: seq<LockedKey>, secret: Secret): Result<WalletKey, CryptoError> {
    UnlockWith(s.key, Unlocked(keys, secret))
  }

  /** `get_wallet_name`. */
  function FetchName(s: StoredWallet, keys: seq<LockedKey>, secret: Secret): Result<Utf8String, CryptoError> {
    match FetchKey(s, keys, secret)
    case Err(e) => Err(e)
    case Ok(key) =>
      match DecodeBase64(s.name)
      case Err(e) => Err(e)
      case Ok(data) =>
        match Decrypt(key, data)
        case Err(e) => Err(e)
        case Ok(clear) => FromUtf8(clear)
  }

  /** The AES-GCM ciphertext of the mnemonic, out of its legacy envelope if it has one. */
  function EncryptedMnemonic(s: StoredWallet, keys: seq<LockedKey>, secret: Secret): Result<Octets, CryptoError> {
    match DecodeBase64(s.mnemonic)
    case Err(e) => Err(e)
    case Ok(data) =>
      if s.legacy == Some(1) then
        match OpenEnvelope(Materials(Unlocked(keys, secret)), data)
        case None => Err(Decryption)
        case Some(inner) => Ok(inner)
      else Ok(data)
  }

  /** `get_wallet_mnemonic`. */
  function FetchMnemonic(s: StoredWallet, keys: seq<LockedKey>, secret: Secret): Result<Octets, CryptoError> {
    match FetchKey(s, keys, secret)
    case Err(e) => Err(e)
    case Ok(key) =>
      match EncryptedMnemonic(s, keys, secret)
      case Err(e) => Err(e)
      case Ok(data) => Decrypt(key, data)
  }

  // ----- the round trip

  function Stored(r: CreateRequest, legacy: Option<nat>): StoredWallet {
    StoredWallet(r.name, r.mnemonic, LockedWalletKey(r.walletKey, r.walletKeySignature), legacy)
  }

  /** The same wallet in the legacy layout: the mnemonic's ciphertext inside a PGP message to some key. */
  function StoredLegacy(r: CreateRequest, to: Material, legacy: Option<nat>): StoredWallet {
    Stored(r, legacy).(mnemonic := Base64(Envelop(to, if r.mnemonic.Base64? then r.mnemonic.octets else [])))
  }

  /** The user holds the private material of the key the wallet was created with. */
  ghost predicate Holds(keys: seq<LockedKey>, secret: Secret, m: Material) {
    m in Materials(Unlocked(keys, secret))
  }

  lemma CreationSucceedsExactly(
    w: CreationWorld, keyId: string, name: Utf8String, mnemonic: Utf8String, fingerprint: string,
    walletType: nat, hasPassphrase: bool)
    ensures CreateWallet(w, keyId, name, mnemonic, fingerprint, walletType, hasPassphrase).Ok? <==>
            CanCreate(w)
    ensures var r := CreateWallet(w, keyId, name, mnemonic, fingerprint, walletType, hasPassphrase);
            && (r == Err(PrimaryKeyFailed) <==> w.primary == None)
            && (r == Err(PassphraseFailed) <==> w.primary.Some? && w.passphrase == None)
  {
    if w.primary.Some? && w.passphrase.Some? {
      var key, secret := w.primary.value, w.passphrase.value;
      assert [key][1..] == [] && Unlocked([], secret) == [];
      assert |Unlocked([key], secret)| == if key.active && Opens(key, secret) then 1 else 0;
    }
  }

  lemma DefaultNameIsUtf8()
    ensures ValidUtf8(DEFAULT_NAME)
  {
    assert ValidUtf8(DEFAULT_NAME[9..]);
    assert ValidUtf8(DEFAULT_NAME[8..]) by { assert DEFAULT_NAME[8..][1..] == DEFAULT_NAME[9..]; }
    assert ValidUtf8(DEFAULT_NAME[7..]) by { assert DEFAULT_NAME[7..][1..] == DEFAULT_NAME[8..]; }
    assert ValidUtf8(DEFAULT_NAME[6..]) by { assert DEFAULT_NAME[6..][1..] == DEFAULT_NAME[7..]; }
    assert ValidUtf8(DEFAULT_NAME[5..]) by { assert DEFAULT_NAME[5..][1..] == DEFAULT_NAME[6..]; }
    assert ValidUtf8(DEFAULT_NAME[4..]) by { assert DEFAULT_NAME[4..][1..] == DEFAULT_NAME[5..]; }
    assert ValidUtf8(DEFAULT_NAME[3..]) by { assert DEFAULT_NAME[3..][1..] == DEFAULT_NAME[4..]; }
    assert ValidUtf8(DEFAULT_NAME[2..]) by { assert DEFAULT_NAME[2..][1..] == DEFAULT_NAME[3..]; }
    assert ValidUtf8(DEFAULT_NAME[1..]) by { assert DEFAULT_NAME[1..][1..] == DEFAULT_NAME[2..]; }
  }

  lemma EncryptedIsDecrypted(key: WalletKey, nonce: Nonce, clear: Octets)
    ensures Decrypt(key, Encrypt(key, nonce, clear)) == Ok(clear)
  {
    DecryptInvertsEncrypt(key, Encrypt(key, nonce, clear), clear);
  }

  /** What `create_wallet` uploads, any key set can read back exactly if it holds the creating key: it
      gets the name ("My Wallet" for an empty one) and the mnemonic; any other key set gets neither. */
  lemma CreatedWalletReadsBack(
    w: CreationWorld, keyId: string, name: Utf8String, mnemonic: Utf8String, fingerprint: string,
    walletType: nat, hasPassphrase: bool, legacy: Option<nat>, keys: seq<LockedKey>, secret: Secret)
    requires CanCreate(w) && legacy != Some(1)
    ensures var s := Stored(CreateWallet(w, keyId, name, mnemonic, fingerprint, walletType, hasPassphrase).value, legacy);
            if Holds(keys, secret, w.primary.value.privateKey.material) then
              FetchName(s, keys, secret) == Ok(if name == [] then Ascii("My Wallet") else name)
              && FetchMnemonic(s, keys, secret) == Ok(mnemonic)
            else
              FetchName(s, keys, secret).Err? && FetchMnemonic(s, keys, secret).Err?
  {
    DefaultNameIsUtf8();
    DefaultNameSpelled();
    EncryptedIsDecrypted(w.walletKey, w.nameNonce, ChosenName(name));
    EncryptedIsDecrypted(w.walletKey, w.mnemonicNonce, mnemonic);
    CreatedRequest(w, keyId, name, mnemonic, fingerprint, walletType, hasPassphrase);
    UnlockInvertsLock(w.walletKey, CreatingKey(w), Unlocked(keys, secret));
  }

  function CreatingKey(w: CreationWorld): UnlockedKey
    requires CanCreate(w)
  {
    UnlockedKey(w.primary.value.id, w.primary.value.privateKey.material)
  }

  lemma CreatedRequest(
    w: CreationWorld, keyId: string, name: Utf8String, mnemonic: Utf8String, fingerprint: string,
    walletType: nat, hasPassphrase: bool)
    requires CanCreate(w)
    ensures CreateWallet(w, keyId, name, mnemonic, fingerprint, walletType, hasPassphrase).Ok?
    ensures var s := Stored(CreateWallet(w, keyId, name, mnemonic, fingerprint, walletType, hasPassphrase).value, None);
            && s.name == Base64(Encrypt(w.walletKey, w.nameNonce, ChosenName(name)))
            && s.mnemonic == Base64(Encrypt(w.walletKey, w.mnemonicNonce, mnemonic))
            && s.key == LockWith(w.walletKey, CreatingKey(w))
    ensures var r := CreateWallet(w, keyId, name, mnemonic, fingerprint, walletType, hasPassphrase).value;
            r.userKeyId == keyId && r.fingerprint == fingerprint && r.isImported == walletType && r.hasPassphrase == hasPassphrase
  {
    assert Unlocked([w.primary.value], w.passphrase.value) == [CreatingKey(w)];
  }

  /** In the legacy layout the mnemonic needs the envelope's key as well; the name does not. */
  lemma LegacyWalletReadsBack(
    w: CreationWorld, keyId: string, name: Utf8String, mnemonic: Utf8String, fingerprint: string,
    walletType: nat, hasPassphrase: bool, to: Material, keys: seq<LockedKey>, secret: Secret)
    requires CanCreate(w)
    requires Holds(keys, secret, w.primary.value.privateKey.material)
    ensures var s := StoredLegacy(CreateWallet(w, keyId, name, mnemonic, fingerprint, walletType, hasPassphrase).value, to, Some(1));
            && FetchName(s, keys, secret) == Ok(ChosenName(name))
            && FetchMnemonic(s, keys, secret) == if Holds(keys, secret, to) then Ok(mnemonic) else Err(Decryption)
  {
    CreatedWalletReadsBack(w, keyId, name, mnemonic, fingerprint, walletType, hasPassphrase, None, keys, secret);
    var data := Encrypt(w.walletKey, w.mnemonicNonce, mnemonic);
    var ms := Materials(Unlocked(keys, secret));
    assert Envelop(to, data)[0] == Enveloped(to, data, 0);
    assert OpenEnvelope(ms, Envelop(to, data)) == if to in ms then Some(data) else None;
  }

  /** The legacy mark must match the layout: read under the other one, a mnemonic is never returned. */
  lemma WrongLayoutIsRefused(
    w: CreationWorld, keyId: string, name: Utf8String, mnemonic: Utf8String, fingerprint: string,
    walletType: nat, hasPassphrase: bool, to: Material, legacy: Option<nat>, keys: seq<LockedKey>, secret: Secret)
    requires CanCreate(w)
    ensures var r := CreateWallet(w, keyId, name, mnemonic, fingerprint, walletType, hasPassphrase).value;
            && FetchMnemonic(Stored(r, Some(1)), keys, secret).Err?
            && (legacy != Some(1) ==> FetchMnemonic(StoredLegacy(r, to, legacy), keys, secret).Err?)
  {
    var data := Encrypt(w.walletKey, w.mnemonicNonce, mnemonic);
    assert data[0] == w.mnemonicNonce[0];
    var wrapped := Envelop(to, data);
    assert |data| >= NONCE_LENGTH;
    assert wrapped[NONCE_LENGTH..][0] == Enveloped(to, data, NONCE_LENGTH);
  }

  // ----- exactly what can be read

  /** A name is read exactly if a held user key can unlock a wallet key that a held user key has signed, and the
      stored name is that wallet key's encryption of this UTF-8 text. */
  lemma NameReadExactly(s: StoredWallet, keys: seq<LockedKey>, secret: Secret, name: Utf8String)
    ensures FetchName(s, keys, secret) == Ok(name) <==>
            exists key: WalletKey, nonce: Nonce ::
              LockedAmong(s.key, Materials(Unlocked(keys, secret)), key) && s.name == Base64(Encrypt(key, nonce, name))
  {
    if FetchName(s, keys, secret) == Ok(name) {
      var key := FetchKey(s, keys, secret).value;
      UnlocksExactly(s.key, Unlocked(keys, secret), key);
      DecryptInvertsEncrypt(key, s.name.octets, name);
      var nonce: Nonce :| s.name.octets == Encrypt(key, nonce, name);
      assert s.name == Base64(Encrypt(key, nonce, name));
    }
    if key: WalletKey, nonce: Nonce :|
       LockedAmong(s.key, Materials(Unlocked(keys, secret)), key) && s.name == Base64(Encrypt(key, nonce, name))
    {
      UnlocksExactly(s.key, Unlocked(keys, secret), key);
      EncryptedIsDecrypted(key, nonce, name);
    }
  }

  /** What is stored for a mnemonic's ciphertext: the ciphertext itself, or for a legacy wallet a message to a held key. */
  ghost predicate Carries(s: StoredWallet, ms: set<Material>, data: Octets) {
    if s.legacy == Some(1) then exists to :: to in ms && s.mnemonic == Base64(Envelop(to, data))
    else s.mnemonic == Base64(data)
  }

  /** The same for the mnemonic, through the legacy envelope if the wallet has the legacy mark. */
  lemma MnemonicReadExactly(s: StoredWallet, keys: seq<LockedKey>, secret: Secret, mnemonic: Octets)
    ensures FetchMnemonic(s, keys, secret) == Ok(mnemonic) <==>
            exists key: WalletKey, nonce: Nonce ::
              && LockedAmong(s.key, Materials(Unlocked(keys, secret)), key)
              && Carries(s, Materials(Unlocked(keys, secret)), Encrypt(key, nonce, mnemonic))
  {
    if FetchMnemonic(s, keys, secret) == Ok(mnemonic) {
      var key, data := FetchKey(s, keys, secret).value, EncryptedMnemonic(s, keys, secret).value;
      UnlocksExactly(s.key, Unlocked(keys, secret), key);
      CiphertextExactly(s, keys, secret, data);
      DecryptInvertsEncrypt(key, data, mnemonic);
      var nonce: Nonce :| data == Encrypt(key, nonce, mnemonic);
    }
    if key: WalletKey, nonce: Nonce :|
       && LockedAmong(s.key, Materials(Unlocked(keys, secret)), key)
       && Carries(s, Materials(Unlocked(keys, secret)), Encrypt(key, nonce, mnemonic))
    {
      UnlocksExactly(s.key, Unlocked(keys, secret), key);
      CiphertextExactly(s, keys, secret, Encrypt(key, nonce, mnemonic));
      EncryptedIsDecrypted(key, nonce, mnemonic);
    }
  }

  lemma CiphertextExactly(s: StoredWallet, keys: seq<LockedKey>, secret: Secret, data: Octets)
    ensures EncryptedMnemonic(s, keys, secret) == Ok(data) <==> Carries(s, Materials(Unlocked(keys, secret)), data)
  {
    if s.mnemonic.Base64? && s.legacy == Some(1) {
      OpenInvertsEnvelop(Materials(Unlocked(keys, secret)), s.mnemonic.octets, data);
    }
  }

  /** A wallet key that no held user key has signed gives access to nothing. */
  lemma UnsignedKeyReadsNothing(s: StoredWallet, keys: seq<LockedKey>, secret: Secret)
    requires forall u, key :: u in Unlocked(keys, secret) ==> s.key.signature != ArmoredSignature(u.material, "wallet.key", key)
    ensures FetchName(s, keys, secret).Err? && FetchMnemonic(s, keys, secret).Err?
  {
    UnlockFailsExactly(s.key, Unlocked(keys, secret));
  }

  /** Which keys unlock: exactly the active ones that the secret opens, in order. */
  lemma UnlockedSplits(a: seq<LockedKey>, b: seq<LockedKey>, secret: Secret)
    ensures Unlocked(a + b, secret) == Unlocked(a, secret) + Unlocked(b, secret)
    decreases |a|
  {
    if a == [] {
      assert a + b == b;
    } else {
      assert (a + b)[1..] == a[1..] + b;
      UnlockedSplits(a[1..], b, secret);
    }
  }

  lemma {:induction false} UnlockedExactly(keys: seq<LockedKey>, secret: Secret, u: UnlockedKey)
    ensures u in Unlocked(keys, secret) <==>
            exists k :: k in keys && k.active && k.id == u.id && k.privateKey == ArmoredKey(u.material, secret)
  {
    if keys != [] {
      assert keys == [keys[0]] + keys[1..];
      UnlockedExactly(keys[1..], secret, u);
    }
  }
}
