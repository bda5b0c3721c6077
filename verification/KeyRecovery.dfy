/** Locking a user's private keys to a new secret, and the recovery phrase built on it. */
module KeyRecovery {
  import opened Wrappers
  import opened CryptoTerms
  import opened WalletSecrets

  datatype RelockedKey = RelockedKey(keyId: string, privateKey: Text)

  /** Every key unlocks with the old secret and the library can lock it again. */
  ghost predicate AllRelock(keys: seq<LockedKey>, oldSecret: Secret, refused: set<string>) {
    forall i :: 0 <= i < |keys| ==> keys[i].active && Opens(keys[i], oldSecret) && keys[i].id !in refused
  }

  /** One relocked key per input key, in order, holding the same private material under the new secret. */
  ghost predicate RelockedFrom(keys: seq<LockedKey>, relocked: seq<RelockedKey>, newSecret: Secret) {
    && |relocked| == |keys|
    && forall i :: 0 <= i < |keys| ==>
         && relocked[i].keyId == keys[i].id && keys[i].privateKey.ArmoredKey?
         && relocked[i].privateKey == ArmoredKey(keys[i].privateKey.material, newSecret)
  }

  lemma {:induction false} UnlockedCount(keys: seq<LockedKey>, secret: Secret)
    ensures |Unlocked(keys, secret)| <= |keys|
    ensures FailedCount(keys, secret) == 0 && |Unlocked(keys, secret)| == |keys| <==>
            forall i :: 0 <= i < |keys| ==> keys[i].active && Opens(keys[i], secret)
  {
    if keys != [] {
      UnlockedCount(keys[1..], secret);
      assert forall i :: 1 <= i < |keys| ==> keys[i] == keys[1..][i - 1];
      if forall i :: 0 <= i < |keys| ==> keys[i].active && Opens(keys[i], secret) {
        assert forall i :: 0 <= i < |keys[1..]| ==> keys[1..][i] == keys[i + 1];
      }
    }
  }

  lemma {:induction false} UnlockedInOrder(keys: seq<LockedKey>, secret: Secret)
    requires forall i :: 0 <= i < |keys| ==> keys[i].active && Opens(keys[i], secret)
    ensures |Unlocked(keys, secret)| == |keys|
    ensures forall i :: 0 <= i < |keys| ==>
              keys[i].privateKey.ArmoredKey? && Unlocked(keys, secret)[i] == UnlockedKey(keys[i].id, keys[i].privateKey.material)
  {
    if keys != [] {
      UnlockedInOrder(keys[1..], secret);
    }
  }

  /** Succeeds exactly when every key can be unlocked and locked again; `refused` are the ids of keys the
      library fails to lock.  One failing key means that no relocked key at all is returned. */
  method RelockUserKeyWith(keys: seq<LockedKey>, oldSecret: Secret, newSecret: Secret, refused: set<string>)
    returns (r: Result<seq<RelockedKey>, CryptoError>)
    ensures r.Ok? <==> AllRelock(keys, oldSecret, refused)
    ensures r.Ok? ==> RelockedFrom(keys, r.value, newSecret)
    ensures r.Err? ==> r.error == RelockKeyCountMismatch("Unlock User Keys") || r.error == RelockFailed
    ensures r == Relock(keys, oldSecret, newSecret, refused)
  {
    var unlocked := Unlocked(keys, oldSecret);
    UnlockedCount(keys, oldSecret);
    if FailedCount(keys, oldSecret) != 0 || |unlocked| != |keys| {
      return Err(RelockKeyCountMismatch("Unlock User Keys"));
    }
    UnlockedInOrder(keys, oldSecret);
    var relocked: seq<RelockedKey> := [];
    for i := 0 to |unlocked|
      invariant |relocked| == i
      invariant forall j :: 0 <= j < i ==>
        relocked[j] == RelockedKey(unlocked[j].id, ArmoredKey(unlocked[j].material, newSecret)) && unlocked[j].id !in refused
    {
      if unlocked[i].id in refused {
        RelockStops(unlocked, newSecret, refused, i);
        return Err(RelockFailed);
      }
      relocked := relocked + [RelockedKey(unlocked[i].id, ArmoredKey(unlocked[i].material, newSecret))];
    }
    if |relocked| != |keys| {
      return Err(RelockKeyCountMismatch("Lock User Keys"));
    }
    RelockMaps(unlocked, newSecret, refused, relocked);
    return Ok(relocked);
  }

  /** The value the method computes, for use in specifications. */
  function Relock(keys: seq<LockedKey>, oldSecret: Secret, newSecret: Secret, refused: set<string>)
    : Result<seq<RelockedKey>, CryptoError>
  {
    var unlocked := Unlocked(keys, oldSecret);
    if FailedCount(keys, oldSecret) != 0 || |unlocked| != |keys| then Err(RelockKeyCountMismatch("Unlock User Keys"))
    else RelockEach(unlocked, newSecret, refused)
  }

  function RelockEach(unlocked: seq<UnlockedKey>, newSecret: Secret, refused: set<string>): Result<seq<RelockedKey>, CryptoError> {
    if unlocked == [] then Ok([])
    else if unlocked[0].id in refused then Err(RelockFailed)
    else
      match RelockEach(unlocked[1..], newSecret, refused)
      case Err(e) => Err(e)
      case Ok(rest) => Ok([RelockedKey(unlocked[0].id, ArmoredKey(unlocked[0].material, newSecret))] + rest)
  }

  lemma {:induction false} RelockStops(unlocked: seq<UnlockedKey>, newSecret: Secret, refused: set<string>, i: nat)
    requires i < |unlocked| && unlocked[i].id in refused
    ensures RelockEach(unlocked, newSecret, refused) == Err(RelockFailed)
  {
    if i > 0 && unlocked[0].id !in refused {
      RelockStops(unlocked[1..], newSecret, refused, i - 1);
    }
  }

  lemma {:induction false} RelockMaps(unlocked: seq<UnlockedKey>, newSecret: Secret, refused: set<string>, relocked: seq<RelockedKey>)
    requires |relocked| == |unlocked|
    requires forall j :: 0 <= j < |unlocked| ==>
      relocked[j] == RelockedKey(unlocked[j].id, ArmoredKey(unlocked[j].material, newSecret)) && unlocked[j].id !in refused
    ensures RelockEach(unlocked, newSecret, refused) == Ok(relocked)
  {
    if unlocked != [] {
      RelockMaps(unlocked[1..], newSecret, refused, relocked[1..]);
      assert relocked == [relocked[0]] + relocked[1..];
    }
  }

  lemma {:induction false} RelockExactly(keys: seq<LockedKey>, oldSecret: Secret, newSecret: Secret, refused: set<string>)
    ensures Relock(keys, oldSecret, newSecret, refused).Ok? <==> AllRelock(keys, oldSecret, refused)
    ensures Relock(keys, oldSecret, newSecret, refused).Ok? ==>
              RelockedFrom(keys, Relock(keys, oldSecret, newSecret, refused).value, newSecret)
    ensures Relock(keys, oldSecret, newSecret, refused) == Err(RelockKeyCountMismatch("Unlock User Keys")) <==>
            exists i :: 0 <= i < |keys| && !(keys[i].active && Opens(keys[i], oldSecret))
    ensures Relock(keys, oldSecret, newSecret, refused) == Err(RelockFailed) <==>
            && (forall i :: 0 <= i < |keys| ==> keys[i].active && Opens(keys[i], oldSecret))
            && (exists i :: 0 <= i < |keys| && keys[i].id in refused)
  {
    UnlockedCount(keys, oldSecret);
    if FailedCount(keys, oldSecret) == 0 && |Unlocked(keys, oldSecret)| == |keys| {
      UnlockedInOrder(keys, oldSecret);
      var unlocked := Unlocked(keys, oldSecret);
      if i :| 0 <= i < |keys| && keys[i].id in refused {
        RelockStops(unlocked, newSecret, refused, i);
      } else {
        var relocked := seq(|keys|, i requires 0 <= i < |keys| => RelockedKey(unlocked[i].id, ArmoredKey(unlocked[i].material, newSecret)));
        RelockMaps(unlocked, newSecret, refused, relocked);
      }
    }
  }

  // ----- what the new keys open

  /** The user's keys with their private parts replaced by the relocked ones. */
  function Replaced(keys: seq<LockedKey>, relocked: seq<RelockedKey>): seq<LockedKey>
    requires |relocked| == |keys|
  {
    seq(|keys|, i requires 0 <= i < |keys| => keys[i].(privateKey := relocked[i].privateKey))
  }

  /** Unlocking the relocked keys with the new secret yields what unlocking the old ones with the old secret did. */
  lemma RelockingKeepsTheKeys(keys: seq<LockedKey>, oldSecret: Secret, newSecret: Secret, refused: set<string>)
    requires Relock(keys, oldSecret, newSecret, refused).Ok?
    ensures var relocked := Relock(keys, oldSecret, newSecret, refused).value;
            |relocked| == |keys| && Unlocked(Replaced(keys, relocked), newSecret) == Unlocked(keys, oldSecret)
  {
    RelockExactly(keys, oldSecret, newSecret, refused);
    var replaced := Replaced(keys, Relock(keys, oldSecret, newSecret, refused).value);
    assert forall i :: 0 <= i < |replaced| ==> replaced[i].active && Opens(replaced[i], newSecret);
    UnlockedInOrder(keys, oldSecret);
    UnlockedInOrder(replaced, newSecret);
    assert Unlocked(replaced, newSecret) == Unlocked(keys, oldSecret);
  }

  /** So every wallet reads the same before and after, legacy or not. */
  lemma WalletsSurviveRelocking(keys: seq<LockedKey>, oldSecret: Secret, newSecret: Secret, refused: set<string>, s: StoredWallet)
    requires Relock(keys, oldSecret, newSecret, refused).Ok?
    ensures var relocked := Relock(keys, oldSecret, newSecret, refused).value;
            && |relocked| == |keys|
            && FetchName(s, Replaced(keys, relocked), newSecret) == FetchName(s, keys, oldSecret)
            && FetchMnemonic(s, Replaced(keys, relocked), newSecret) == FetchMnemonic(s, keys, oldSecret)
  {
    RelockingKeepsTheKeys(keys, oldSecret, newSecret, refused);
  }

  // ----- the recovery phrase

  /** BIP-39 words and the entropy they spell. */
  datatype Words = Words(entropy: Octets)

  datatype FeaturesError =
    | PasswordScope | Mnemonic | HashFailed | Crypto(error: CryptoError) | UserKeys | AuthModule | SettingsRequest | LockRequest
    | LockSensitiveSettings(code: nat)

  datatype RecoveryRequest = RecoveryRequest(keys: seq<RelockedKey>, salt: Text)

  /** What the random generator, the providers and the server supply to one call, with
      every step free to fail. */
  datatype RecoveryWorld = RecoveryWorld(
    unlockScope: bool,
    salt: Octets,
    entropy: Octets,
    mnemonicOk: bool,
    hashOk: bool,
    userKeys: Option<seq<LockedKey>>,
    passphrase: Option<Secret>,
    refused: set<string>,
    authModuleOk: bool,
    settingsOk: bool,
    lockCode: Option<nat>)

  /** The secret the phrase stands for: the hash of its entropy, in base64, with the salt. */
  function RecoverySecret(entropy: Octets, salt: Octets): Secret { Hashed(Base64(entropy), salt) }

  /** The relocked keys, or why there are none. */
  function RecoveryKeys(w: RecoveryWorld): Result<seq<RelockedKey>, FeaturesError> {
    if !w.mnemonicOk then Err(Mnemonic)
    else if !w.hashOk then Err(HashFailed)
    else if w.userKeys == None || w.passphrase == None then Err(UserKeys)
    else
      match Relock(w.userKeys.value, w.passphrase.value, RecoverySecret(w.entropy, w.salt), w.refused)
      case Err(e) => Err(Crypto(e))
      case Ok(relocked) => Ok(relocked)
  }

  /** The answer to the caller and the requests sent to the server. */
  datatype Outcome = Outcome(answer: Result<Words, FeaturesError>, sent: seq<RecoveryRequest>)

  function Upload(w: RecoveryWorld, thenLock: bool): Outcome {
    match RecoveryKeys(w)
    case Err(e) => Outcome(Err(e), [])
    case Ok(relocked) =>
      var sent := [RecoveryRequest(relocked, Base64(w.salt))];
      if !w.authModuleOk then Outcome(Err(AuthModule), [])
      else if !w.settingsOk then Outcome(Err(SettingsRequest), sent)
      else if !thenLock then Outcome(Ok(Words(w.entropy)), sent)
      else
        match w.lockCode
        case None => Outcome(Err(LockRequest), sent)
        case Some(code) => Outcome(if code != 1000 then Err(LockSensitiveSettings(code)) else Ok(Words(w.entropy)), sent)
  }

  function EnableRecovery(w: RecoveryWorld): Outcome {
    if !w.unlockScope then Outcome(Err(PasswordScope), []) else Upload(w, true)
  }

  /** Without a login password the password scope is taken to be unlocked already. */
  function ReactiveRecovery(w: RecoveryWorld, withPassword: bool): Outcome {
    if withPassword && !w.unlockScope then Outcome(Err(PasswordScope), []) else Upload(w, false)
  }

  /** The request carries every key of the user, each under the secret of the phrase. */
  ghost predicate Complete(w: RecoveryWorld, r: RecoveryRequest) {
    && w.userKeys.Some? && w.passphrase.Some? && r.salt == Base64(w.salt)
    && AllRelock(w.userKeys.value, w.passphrase.value, w.refused)
    && RelockedFrom(w.userKeys.value, r.keys, RecoverySecret(w.entropy, w.salt))
  }

  /** Whatever fails and whenever, recovery sends at most one request and never a partial key set; words
      are shown only when the full set was sent.  After a failed lock the full set has been sent although
      the caller sees an error. */
  lemma RecoveryUploadsAllOrNothing(w: RecoveryWorld, withPassword: bool)
    ensures var o := EnableRecovery(w);
            && |o.sent| <= 1 && (forall r :: r in o.sent ==> Complete(w, r))
            && (o.answer.Ok? ==> |o.sent| == 1 && o.answer.value == Words(w.entropy))
            && (o.answer.Err? && o.answer.error.LockSensitiveSettings? ==> |o.sent| == 1)
    ensures var o := ReactiveRecovery(w, withPassword);
            && |o.sent| <= 1 && (forall r :: r in o.sent ==> Complete(w, r))
            && (o.answer.Ok? ==> |o.sent| == 1 && o.answer.value == Words(w.entropy))
  {
    if w.userKeys.Some? && w.passphrase.Some? {
      RelockExactly(w.userKeys.value, w.passphrase.value, RecoverySecret(w.entropy, w.salt), w.refused);
    }
  }

  /** Everything up to the request works: words, hash, keys, passphrase, every relock and the auth module. */
  ghost predicate CanSend(w: RecoveryWorld) {
    && w.mnemonicOk && w.hashOk && w.userKeys.Some? && w.passphrase.Some?
    && AllRelock(w.userKeys.value, w.passphrase.value, w.refused) && w.authModuleOk
  }

  /** Enabling succeeds exactly if the scope is unlocked, everything up to the request works, the server takes the
      request, and the sensitive settings are then locked with code 1000; the request is sent exactly if the scope is
      unlocked and everything before it works. */
  lemma EnablingSucceedsExactly(w: RecoveryWorld)
    ensures var o := EnableRecovery(w);
            && (o.answer.Ok? <==> w.unlockScope && CanSend(w) && w.settingsOk && w.lockCode == Some(1000))
            && (o.sent != [] <==> w.unlockScope && CanSend(w))
  {
    RelockedExactly(w);
  }

  /** Reactivating needs the scope only if a login password is given, and does not lock the settings. */
  lemma ReactivatingSucceedsExactly(w: RecoveryWorld, withPassword: bool)
    ensures var o := ReactiveRecovery(w, withPassword);
            && (o.answer.Ok? <==> (withPassword ==> w.unlockScope) && CanSend(w) && w.settingsOk)
            && (o.sent != [] <==> (withPassword ==> w.unlockScope) && CanSend(w))
  {
    RelockedExactly(w);
  }

  /** Which error is reported after the request was sent. */
  lemma LateErrors(w: RecoveryWorld)
    requires EnableRecovery(w).sent != []
    ensures var answer := EnableRecovery(w).answer;
            && (answer == Err(SettingsRequest) <==> !w.settingsOk)
            && (answer == Err(LockRequest) <==> w.settingsOk && w.lockCode == None)
            && forall code: nat :: answer == Err(LockSensitiveSettings(code)) <==> w.settingsOk && w.lockCode == Some(code) && code != 1000
  {
    EnablingSucceedsExactly(w);
  }

  /** Which error is reported before anything was sent: that of the first step that fails. */
  lemma EarlyErrors(w: RecoveryWorld)
    requires EnableRecovery(w).sent == []
    ensures var answer := EnableRecovery(w).answer;
            && (answer == Err(PasswordScope) <==> !w.unlockScope)
            && (w.unlockScope ==> (answer == Err(Mnemonic) <==> !w.mnemonicOk))
            && (w.unlockScope && w.mnemonicOk ==> (answer == Err(HashFailed) <==> !w.hashOk))
            && (w.unlockScope && w.mnemonicOk && w.hashOk ==>
                  (answer == Err(UserKeys) <==> w.userKeys == None || w.passphrase == None))
            && (answer == Err(AuthModule) <==> w.unlockScope && CanSend(w.(authModuleOk := true)) && !w.authModuleOk)
  {
    RelockedExactly(w);
  }

  lemma RelockedExactly(w: RecoveryWorld)
    ensures RecoveryKeys(w).Ok? && w.authModuleOk <==> CanSend(w)
    ensures RecoveryKeys(w).Ok? <==> CanSend(w.(authModuleOk := true))
  {
    if w.userKeys.Some? && w.passphrase.Some? {
      RelockExactly(w.userKeys.value, w.passphrase.value, RecoverySecret(w.entropy, w.salt), w.refused);
    }
  }

  /** What someone with the phrase and the uploaded request can do: spell the entropy, hash it with the
      uploaded salt, and unlock. */
  function Recover(words: Words, r: RecoveryRequest, keys: seq<LockedKey>): Option<seq<UnlockedKey>>
    requires |r.keys| == |keys|
  {
    match DecodeBase64(r.salt)
    case Err(_) => None
    case Ok(salt) => Some(Unlocked(Replaced(keys, r.keys), Hashed(Base64(words.entropy), salt)))
  }

  /** Whether recovery was enabled or reactivated: the words shown to the user open every key that was sent, and
      through them the name and the mnemonic of every wallet. */
  lemma PhraseRecoversEverything(w: RecoveryWorld, withPassword: bool, o: Outcome, s: StoredWallet)
    requires o == EnableRecovery(w) || o == ReactiveRecovery(w, withPassword)
    requires o.answer.Ok?
    ensures |o.sent| == 1 && w.userKeys.Some? && w.passphrase.Some? && |o.sent[0].keys| == |w.userKeys.value|
    ensures Recover(o.answer.value, o.sent[0], w.userKeys.value) == Some(Unlocked(w.userKeys.value, w.passphrase.value))
    ensures var keys, secret := Replaced(w.userKeys.value, o.sent[0].keys), RecoverySecret(o.answer.value.entropy, w.salt);
            && FetchMnemonic(s, keys, secret) == FetchMnemonic(s, w.userKeys.value, w.passphrase.value)
            && FetchName(s, keys, secret) == FetchName(s, w.userKeys.value, w.passphrase.value)
  {
    RelockingKeepsTheKeys(w.userKeys.value, w.passphrase.value, RecoverySecret(w.entropy, w.salt), w.refused);
    WalletsSurviveRelocking(w.userKeys.value, w.passphrase.value, RecoverySecret(w.entropy, w.salt), w.refused, s);
  }
}
