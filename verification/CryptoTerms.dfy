/** Symbolic cryptography: ciphertexts, signatures, armored keys and hashes are terms that remember
    how they were made, and the library operations are the partial inverses of making them. */
module CryptoTerms {
  import opened Wrappers

  type U8 = n: nat | n < 256

  /** One octet on the wire: a plain byte, or the `index`-th octet of an AES-GCM or PGP ciphertext. */
  datatype Octet =
    | Byte(b: U8)
    | Sealed(key: Octets, nonce: Octets, plaintext: Octets, index: nat)
    | Enveloped(to: Material, payload: Octets, index: nat)

  type Octets = seq<Octet>

  /** The secret part of an OpenPGP key pair, which also stands for its public part. */
  type Material = nat

  /** What unlocks a private key: a passphrase, or the hash of a password with a salt. */
  datatype Secret = Passphrase(octets: Octets) | Hashed(password: Text, salt: Octets)

  /** Text as it is stored and sent. */
  datatype Text =
    | Raw(octets: Octets)
    | Base64(octets: Octets)
    | ArmoredMessage(to: Material, payload: Octets)
    | ArmoredSignature(signer: Material, context: string, payload: Octets)
    | ArmoredKey(material: Material, secret: Secret)

  datatype CryptoError =
    | Decode | Utf8 | InvalidDataSize | AesGcm | Decryption | SignatureVerify | InvalidKeyLength
    | RelockKeyCountMismatch(stage: string) | RelockFailed

  // ----- AES-GCM: the ciphertext is as long as the plaintext plus a 16-octet tag (section 7 of NIST SP 800-38D)

  const TAG_LENGTH: nat := 16
  const NONCE_LENGTH: nat := 12
  const KEY_LENGTH: nat := 32

  function Seal(key: Octets, nonce: Octets, plaintext: Octets): Octets {
    seq(|plaintext| + TAG_LENGTH, i requires 0 <= i < |plaintext| + TAG_LENGTH => Sealed(key, nonce, plaintext, i))
  }

  function Open(key: Octets, nonce: Octets, ciphertext: Octets): Option<Octets> {
    if ciphertext != [] && ciphertext[0].Sealed? && ciphertext == Seal(key, nonce, ciphertext[0].plaintext)
    then Some(ciphertext[0].plaintext)
    else None
  }

  /** Opening succeeds exactly on what was sealed with this key and nonce. */
  lemma OpenInvertsSeal(key: Octets, nonce: Octets, ciphertext: Octets, plaintext: Octets)
    ensures Open(key, nonce, ciphertext) == Some(plaintext) <==> ciphertext == Seal(key, nonce, plaintext)
  {
    assert Seal(key, nonce, plaintext)[0] == Sealed(key, nonce, plaintext, 0);
  }

  // ----- binary OpenPGP messages

  function Envelop(to: Material, payload: Octets): Octets {
    seq(|payload| + 1, i requires 0 <= i < |payload| + 1 => Enveloped(to, payload, i))
  }

  /** Decrypts with whichever of the keys the message was encrypted to. */
  function OpenEnvelope(keys: set<Material>, message: Octets): Option<Octets> {
    if message != [] && message[0].Enveloped? && message[0].to in keys && message == Envelop(message[0].to, message[0].payload)
    then Some(message[0].payload)
    else None
  }

  lemma OpenInvertsEnvelop(keys: set<Material>, message: Octets, payload: Octets)
    ensures OpenEnvelope(keys, message) == Some(payload) <==> exists to :: to in keys && message == Envelop(to, payload)
  {
    if OpenEnvelope(keys, message) == Some(payload) {
      assert message == Envelop(message[0].to, payload);
    }
    if to :| to in keys && message == Envelop(to, payload) {
      assert Envelop(to, payload)[0] == Enveloped(to, payload, 0);
    }
  }

  // ----- encodings

  function DecodeBase64(t: Text): Result<Octets, CryptoError> {
    if t.Base64? then Ok(t.octets) else Err(Decode)
  }

  predicate Between(o: Octet, low: nat, high: nat) { o.Byte? && low <= o.b <= high }

  predicate Continuation(o: Octet) { Between(o, 0x80, 0xBF) }

  /** Well-formed UTF-8 (section 4 of RFC 3629), the condition of `str::from_utf8`. */
  predicate ValidUtf8(s: Octets) {
    if s == [] then true
    else if Between(s[0], 0x00, 0x7F) then ValidUtf8(s[1..])
    else if |s| >= 2 && Between(s[0], 0xC2, 0xDF) && Continuation(s[1]) then ValidUtf8(s[2..])
    else if |s| >= 3 && Continuation(s[2])
            && (|| (Between(s[0], 0xE0, 0xE0) && Between(s[1], 0xA0, 0xBF))
                || (Between(s[0], 0xE1, 0xEC) && Continuation(s[1]))
                || (Between(s[0], 0xED, 0xED) && Between(s[1], 0x80, 0x9F))
                || (Between(s[0], 0xEE, 0xEF) && Continuation(s[1])))
    then ValidUtf8(s[3..])
    else if |s| >= 4 && Continuation(s[2]) && Continuation(s[3])
            && (|| (Between(s[0], 0xF0, 0xF0) && Between(s[1], 0x90, 0xBF))
                || (Between(s[0], 0xF1, 0xF3) && Continuation(s[1]))
                || (Between(s[0], 0xF4, 0xF4) && Between(s[1], 0x80, 0x8F)))
    then ValidUtf8(s[4..])
    else false
  }

  /** A Rust `String`. */
  type Utf8String = s: Octets | ValidUtf8(s) witness []

  function FromUtf8(octets: Octets): Result<Utf8String, CryptoError> {
    if ValidUtf8(octets) then Ok(octets) else Err(Utf8)
  }

  // ----- UTF-8 as the encoding of scalar values

  /** A Unicode scalar value: a code point that is no surrogate. */
  predicate Scalar(c: int) { 0 <= c < 0xD800 || 0xE000 <= c < 0x110000 }

  /** Section 3 of RFC 3629. */
  function EncodeScalar(c: int): Octets
    requires Scalar(c)
  {
    if c < 0x80 then [Byte(c)]
    else if c < 0x800 then [Byte(0xC0 + c / 0x40), Byte(0x80 + c % 0x40)]
    else if c < 0x10000 then [Byte(0xE0 + c / 0x1000), Byte(0x80 + c / 0x40 % 0x40), Byte(0x80 + c % 0x40)]
    else [Byte(0xF0 + c / 0x40000), Byte(0x80 + c / 0x1000 % 0x40), Byte(0x80 + c / 0x40 % 0x40), Byte(0x80 + c % 0x40)]
  }

  function EncodeText(cs: seq<int>): Octets
    requires forall i :: 0 <= i < |cs| ==> Scalar(cs[i])
  {
    if cs == [] then [] else EncodeScalar(cs[0]) + EncodeText(cs[1..])
  }

  lemma ScalarIsValid(c: int, rest: Octets)
    requires Scalar(c)
    ensures ValidUtf8(EncodeScalar(c) + rest) <==> ValidUtf8(rest)
  {
    var head := EncodeScalar(c);
    var s := head + rest;
    assert s[|head|..] == rest;
    assert s[..|head|] == head;
    if c < 0x80 {
      assert s[0] == Byte(c);
    } else if c < 0x800 {
      assert s[0] == Byte(0xC0 + c / 0x40) && s[1] == Byte(0x80 + c % 0x40);
    } else if c < 0x10000 {
      assert s[0] == Byte(0xE0 + c / 0x1000) && s[1] == Byte(0x80 + c / 0x40 % 0x40) && s[2] == Byte(0x80 + c % 0x40);
    } else {
      assert s[0] == Byte(0xF0 + c / 0x40000) && s[1] == Byte(0x80 + c / 0x1000 % 0x40);
      assert s[2] == Byte(0x80 + c / 0x40 % 0x40) && s[3] == Byte(0x80 + c % 0x40);
    }
  }

  lemma Digits2(a: int, d: int)
    requires 0 <= a && 0 <= d < 0x40
    ensures (a * 0x40 + d) / 0x40 == a && (a * 0x40 + d) % 0x40 == d
  {
  }

  lemma Digits3(a: int, b: int, d: int)
    requires 0 <= a && 0 <= b < 0x40 && 0 <= d < 0x40
    ensures var c := (a * 0x40 + b) * 0x40 + d;
            c / 0x1000 == a && c / 0x40 % 0x40 == b && c % 0x40 == d
  {
    Digits2(a * 0x40 + b, d);
    Digits2(a, b);
    DivTwice((a * 0x40 + b) * 0x40 + d);
  }

  lemma DivTwice(c: int)
    requires 0 <= c
    ensures c / 0x40 / 0x40 == c / 0x1000 && c / 0x1000 / 0x40 == c / 0x40000
  {
  }

  lemma Digits4(a: int, e: int, b: int, d: int)
    requires 0 <= a && 0 <= e < 0x40 && 0 <= b < 0x40 && 0 <= d < 0x40
    ensures var c := ((a * 0x40 + e) * 0x40 + b) * 0x40 + d;
            c / 0x40000 == a && c / 0x1000 % 0x40 == e && c / 0x40 % 0x40 == b && c % 0x40 == d
  {
    Digits3(a * 0x40 + e, b, d);
    Digits2(a, e);
    DivTwice(((a * 0x40 + e) * 0x40 + b) * 0x40 + d);
  }

  /** The scalar value a valid text starts with. */
  lemma ValidStartsWithScalar(s: Octets) returns (c: int)
    requires ValidUtf8(s) && s != []
    ensures Scalar(c) && |EncodeScalar(c)| <= |s| && s[..|EncodeScalar(c)|] == EncodeScalar(c)
  {
    if s[0].b < 0x80 {
      c := s[0].b;
    } else if s[0].b < 0xE0 {
      c := StartsWithTwo(s[0].b - 0xC0, s[1].b - 0x80);
      assert s[..2] == [s[0], s[1]];
    } else if s[0].b < 0xF0 {
      c := StartsWithThree(s[0].b - 0xE0, s[1].b - 0x80, s[2].b - 0x80);
      assert s[..3] == [s[0], s[1], s[2]];
    } else {
      c := StartsWithFour(s[0].b - 0xF0, s[1].b - 0x80, s[2].b - 0x80, s[3].b - 0x80);
      assert s[..4] == [s[0], s[1], s[2], s[3]];
    }
  }

  lemma StartsWithTwo(a: int, d: int) returns (c: int)
    requires 2 <= a < 0x20 && 0 <= d < 0x40
    ensures Scalar(c) && EncodeScalar(c) == [Byte(0xC0 + a), Byte(0x80 + d)]
  {
    c := a * 0x40 + d;
    Digits2(a, d);
  }

  lemma StartsWithThree(a: int, b: int, d: int) returns (c: int)
    requires 0 <= a < 0x10 && 0 <= b < 0x40 && 0 <= d < 0x40
    requires (a == 0 ==> b >= 0x20) && (a == 0xD ==> b < 0x20)
    ensures Scalar(c) && EncodeScalar(c) == [Byte(0xE0 + a), Byte(0x80 + b), Byte(0x80 + d)]
  {
    c := (a * 0x40 + b) * 0x40 + d;
    Digits3(a, b, d);
  }

  lemma StartsWithFour(a: int, e: int, b: int, d: int) returns (c: int)
    requires 0 <= a <= 4 && 0 <= e < 0x40 && 0 <= b < 0x40 && 0 <= d < 0x40
    requires (a == 0 ==> e >= 0x10) && (a == 4 ==> e < 0x10)
    ensures Scalar(c) && EncodeScalar(c) == [Byte(0xF0 + a), Byte(0x80 + e), Byte(0x80 + b), Byte(0x80 + d)]
  {
    c := ((a * 0x40 + e) * 0x40 + b) * 0x40 + d;
    Digits4(a, e, b, d);
  }

  /** The octets accepted as text are exactly the encodings of sequences of scalar values. */
  lemma {:induction false} ValidUtf8Exactly(s: Octets)
    ensures ValidUtf8(s) <==> exists cs: seq<int> :: (forall i :: 0 <= i < |cs| ==> Scalar(cs[i])) && EncodeText(cs) == s
    decreases |s|
  {
    if ValidUtf8(s) {
      var cs := ScalarsOf(s);
    }
    if cs: seq<int> :| (forall i :: 0 <= i < |cs| ==> Scalar(cs[i])) && EncodeText(cs) == s {
      EncodedIsValid(cs);
    }
  }

  lemma {:induction false} ScalarsOf(s: Octets) returns (cs: seq<int>)
    requires ValidUtf8(s)
    ensures (forall i :: 0 <= i < |cs| ==> Scalar(cs[i])) && EncodeText(cs) == s
    decreases |s|
  {
    if s == [] {
      cs := [];
    } else {
      var c := ValidStartsWithScalar(s);
      var n := |EncodeScalar(c)|;
      assert s == EncodeScalar(c) + s[n..];
      ScalarIsValid(c, s[n..]);
      var rest := ScalarsOf(s[n..]);
      cs := [c] + rest;
    }
  }

  lemma {:induction false} EncodedIsValid(cs: seq<int>)
    requires forall i :: 0 <= i < |cs| ==> Scalar(cs[i])
    ensures ValidUtf8(EncodeText(cs))
  {
    if cs != [] {
      EncodedIsValid(cs[1..]);
      ScalarIsValid(cs[0], EncodeText(cs[1..]));
    }
  }
}
