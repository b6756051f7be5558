/** pmt.go: the recipient of Google Pay payment-method tokens, protocol
    ECv2SigningOnly. A sealed message is parsed, its protocol version is
    checked, its intermediate signing key is verified against the root keys
    the keys manager supplies, and the message is verified against the
    intermediate key; the payload is then returned as it is.

    JSON decoding, base64 (section 4 of RFC 4648), PKIX public-key parsing
    (section 4.1 of RFC 5280) and the ECDSA primitive are collaborators given
    as function values in `Collaborators`; the keys manager's answer is the
    parameter `signingKeys`. What is modelled is the control flow around
    them: the order of the checks, which error comes back, which bytes are
    signed and which key/signature pairs are accepted. */
module PaymentMethodToken {
  import opened PmtTypes
  import opened LengthValue
  import opened KeysManager
  import KeysDownloader

  const EC_V2_SIGNING_ONLY: Bytes := Ascii("ECv2SigningOnly")

  datatype IntermediateSigningKey = IntermediateSigningKey(signedKey: Bytes, signatures: seq<Bytes>)

  datatype SignedMessage = SignedMessage(
    protocolVersion: Bytes,
    intermediateSigningKey: IntermediateSigningKey,
    signedMessage: Bytes,
    signature: Bytes)

  /** An ECDSA public key; its coordinates are never inspected here. */
  datatype EcdsaPublicKey = EcdsaPublicKey(x: nat, y: nat)

  /** What x509.ParsePKIXPublicKey returns: an ECDSA key or a key of another kind. */
  datatype PkixKey = EcdsaKey(key: EcdsaPublicKey) | OtherKey

  /** The collaborators, as function values:
      - signedMessageJson: json.Unmarshal of a sealed message;
      - keysJson: json.Unmarshal of a key and of a key feed;
      - base64: base64.StdEncoding.DecodeString;
      - parsePkix: x509.ParsePKIXPublicKey;
      - canVerify: whether tink's NewECDSAVerifierFromPublicKey("SHA256", "DER", k) succeeds;
      - verify: whether that verifier accepts a signature over some bytes. */
  datatype Collaborators = Collaborators(
    signedMessageJson: Bytes -> Result<SignedMessage>,
    keysJson: KeysJson,
    base64: Bytes -> Result<Bytes>,
    parsePkix: Bytes -> Result<PkixKey>,
    canVerify: EcdsaPublicKey -> bool,
    verify: (EcdsaPublicKey, Bytes, Bytes) -> bool)

  /** The recipient's configuration; M is the keys-manager implementation. */
  datatype PaymentMethodTokenRecipient<M> = PaymentMethodTokenRecipient(
    protocolVersion: Bytes,
    senderID: Bytes,
    recipientID: Bytes,
    keysManager: Option<M>)

  // ---------------------------------------------------------------------
  // Construction
  // ---------------------------------------------------------------------

  /** validate(): the four checks in order, failing at the first. */
  function Validate<M>(r: PaymentMethodTokenRecipient<M>): (res: Result<()>)
    ensures res.Ok? <==>
      r.protocolVersion == EC_V2_SIGNING_ONLY && r.keysManager.Some? && |r.senderID| > 0 && |r.recipientID| > 0
    ensures r.protocolVersion != EC_V2_SIGNING_ONLY ==> res == Err(InvalidProtocolVersion(r.protocolVersion))
    ensures r.protocolVersion == EC_V2_SIGNING_ONLY && r.keysManager.None? ==> res == Err(MissingKeysManager)
    ensures r.protocolVersion == EC_V2_SIGNING_ONLY && r.keysManager.Some? && r.senderID == [] ==>
      res == Err(MissingSenderID)
    ensures r.protocolVersion == EC_V2_SIGNING_ONLY && r.keysManager.Some? && r.senderID != [] && r.recipientID == [] ==>
      res == Err(MissingRecipientID)
  {
    if r.protocolVersion != EC_V2_SIGNING_ONLY then Err(InvalidProtocolVersion(r.protocolVersion))
    else if r.keysManager.None? then Err(MissingKeysManager)
    else if |r.senderID| == 0 then Err(MissingSenderID)
    else if |r.recipientID| == 0 then Err(MissingRecipientID)
    else Ok(())
  }

  /** NewPaymentMethodTokenRecipient: the configured recipient, or the first
      validation error. */
  function NewPaymentMethodTokenRecipient<M>(r: PaymentMethodTokenRecipient<M>): (res: Result<PaymentMethodTokenRecipient<M>>)
    ensures res.Ok? <==> Validate(r).Ok?
    ensures res.Ok? ==> res.value == r
    ensures res.Err? ==> res.error == Validate(r).error
  {
    var _ :- Validate(r);
    Ok(r)
  }

  // ---------------------------------------------------------------------
  // The loops, as functions
  // ---------------------------------------------------------------------

  /** One iteration of parsePublicKeys: the key must be valid now, its value
      must be base64 and PKIX, and the type assertion to an ECDSA key panics
      on any other kind of key. */
  function ParsePublicKey(env: Collaborators, k: Key, now: int): Result<EcdsaPublicKey> {
    var _ :- IsValid(k, now);
    var der :- env.base64(k.keyValue);
    var pub :- env.parsePkix(der);
    match pub
    case EcdsaKey(key) => Ok(key)
    case OtherKey => Err(NonEcdsaKeyPanic)
  }

  function KeyParser(env: Collaborators, now: int): Key -> Result<EcdsaPublicKey> {
    k => ParsePublicKey(env, k, now)
  }

  /** parsePublicKeys: every key parsed in order, failing at the first bad one. */
  function ParsedPublicKeys(env: Collaborators, keys: seq<Key>, now: int): Result<seq<EcdsaPublicKey>> {
    MapAll(KeyParser(env, now), keys)
  }

  /** The signatures decoded in order, failing at the first undecodable one. */
  function DecodedSignatures(env: Collaborators, signatures: seq<Bytes>): Result<seq<Bytes>> {
    MapAll(env.base64, signatures)
  }

  /** Some key for which a verifier can be built accepts some signature. */
  predicate AnyPairVerifies(env: Collaborators, signatures: seq<Bytes>, signedBytes: Bytes, keys: seq<EcdsaPublicKey>) {
    exists i, j :: 0 <= i < |keys| && 0 <= j < |signatures| &&
      env.canVerify(keys[i]) && env.verify(keys[i], signatures[j], signedBytes)
  }

  /** verify() as a value. */
  function VerifyResult(env: Collaborators, signatures: seq<Bytes>, signedBytes: Bytes, keys: seq<EcdsaPublicKey>): Result<()> {
    if AnyPairVerifies(env, signatures, signedBytes, keys) then Ok(()) else Err(CouldNotVerifySignature)
  }

  // ---------------------------------------------------------------------
  // The verification chain
  // ---------------------------------------------------------------------

  /** The bytes the root keys sign: sender, protocol version, signed key. */
  function IntermediateKeySignedBytes<M>(r: PaymentMethodTokenRecipient<M>, key: IntermediateSigningKey): Bytes {
    Encode([r.senderID, r.protocolVersion, key.signedKey])
  }

  /** The bytes the intermediate key signs: sender, recipient, protocol
      version, payload. */
  function MessageSignedBytes<M>(r: PaymentMethodTokenRecipient<M>, msg: SignedMessage): Bytes {
    Encode([r.senderID, r.recipientID, r.protocolVersion, msg.signedMessage])
  }

  /** verifyIntermediateSigningKey, given what the keys manager's
      GetSigningKeys answers. */
  function VerifyIntermediateSigningKey<M>(r: PaymentMethodTokenRecipient<M>, env: Collaborators,
                                           key: IntermediateSigningKey, now: int,
                                           signingKeys: Result<seq<Key>>): Result<()> {
    var signatures :- DecodedSignatures(env, key.signatures);
    var keyObjects :- signingKeys;
    var verifyingKeys :- ParsedPublicKeys(env, keyObjects, now);
    VerifyResult(env, signatures, IntermediateKeySignedBytes(r, key), verifyingKeys)
  }

  /** unsealECv2SigningOnly. */
  function UnsealECv2SigningOnly<M>(r: PaymentMethodTokenRecipient<M>, env: Collaborators, msg: SignedMessage,
                                    now: int, signingKeys: Result<seq<Key>>): Result<Bytes> {
    var _ :- VerifyIntermediateSigningKey(r, env, msg.intermediateSigningKey, now, signingKeys);
    var imkObject :- env.keysJson.key(msg.intermediateSigningKey.signedKey);
    var imk :- ParsedPublicKeys(env, [imkObject], now);
    var sign :- env.base64(msg.signature);
    var _ :- VerifyResult(env, [sign], MessageSignedBytes(r, msg), imk);
    Ok(msg.signedMessage)
  }

  /** Unseal: parse the sealed message and dispatch on its protocol version;
      only ECv2SigningOnly is supported. */
  function Unseal<M>(r: PaymentMethodTokenRecipient<M>, env: Collaborators, sealedMessage: Bytes,
                     now: int, signingKeys: Result<seq<Key>>): Result<Bytes> {
    var m :- env.signedMessageJson(sealedMessage);
    if m.protocolVersion == EC_V2_SIGNING_ONLY then UnsealECv2SigningOnly(r, env, m, now, signingKeys)
    else Err(UnsupportedProtocolVersion)
  }

  /** Whether Unseal gets as far as asking the keys manager: the message
      parses, has the supported version, and all its intermediate-key
      signatures decode. */
  predicate ReachesKeysManager(env: Collaborators, sealedMessage: Bytes) {
    var parsed := env.signedMessageJson(sealedMessage);
    parsed.Ok? && parsed.value.protocolVersion == EC_V2_SIGNING_ONLY &&
    DecodedSignatures(env, parsed.value.intermediateSigningKey.signatures).Ok?
  }

  // ---------------------------------------------------------------------
  // The loops, as methods
  // ---------------------------------------------------------------------

  /** The loop of verifyIntermediateSigningKey that fills `signatures`. */
  method DecodeSignatures(env: Collaborators, encoded: seq<Bytes>) returns (r: Result<seq<Bytes>>)
    ensures r == DecodedSignatures(env, encoded)
  {
    var signatures := new Bytes[|encoded|];
    for i := 0 to |encoded|
      invariant forall k :: 0 <= k < i ==> env.base64(encoded[k]).Ok? && signatures[k] == env.base64(encoded[k]).value
    {
      var d := env.base64(encoded[i]);
      if d.Err? {
        MapAllFirstError(env.base64, encoded, i);
        return Err(d.error);
      }
      signatures[i] := d.value;
    }
    MapAllOk(env.base64, encoded);
    assert signatures[..] == DecodedSignatures(env, encoded).value;
    r := Ok(signatures[..]);
  }

  /** parsePublicKeys: the loop that fills `res`, returning at the first bad key. */
  method ParsePublicKeys(env: Collaborators, keys: seq<Key>, now: int) returns (r: Result<seq<EcdsaPublicKey>>)
    ensures r == ParsedPublicKeys(env, keys, now)
  {
    var res := new EcdsaPublicKey[|keys|];
    for i := 0 to |keys|
      invariant forall k :: 0 <= k < i ==> ParsePublicKey(env, keys[k], now).Ok? && res[k] == ParsePublicKey(env, keys[k], now).value
    {
      var k := keys[i];
      var valid := IsValid(k, now);
      if valid.Err? {
        MapAllFirstError(KeyParser(env, now), keys, i);
        return Err(valid.error);
      }
      var key := env.base64(k.keyValue);
      if key.Err? {
        MapAllFirstError(KeyParser(env, now), keys, i);
        return Err(key.error);
      }
      var pub := env.parsePkix(key.value);
      if pub.Err? {
        MapAllFirstError(KeyParser(env, now), keys, i);
        return Err(pub.error);
      }
      if pub.value.OtherKey? {
        MapAllFirstError(KeyParser(env, now), keys, i);
        return Err(NonEcdsaKeyPanic);
      }
      res[i] := pub.value.key;
    }
    MapAllOk(KeyParser(env, now), keys);
    assert res[..] == ParsedPublicKeys(env, keys, now).value;
    r := Ok(res[..]);
  }

  /** verify(): for every key whose verifier can be built, try the signatures
      until one verifies; succeed if any pair did. */
  method Verify(env: Collaborators, signatures: seq<Bytes>, signedBytes: Bytes, keys: seq<EcdsaPublicKey>) returns (r: Result<()>)
    ensures r.Ok? <==> AnyPairVerifies(env, signatures, signedBytes, keys)
    ensures r.Err? ==> r.error == CouldNotVerifySignature
  {
    var verified := false;
    for i := 0 to |keys|
      invariant verified <==> exists i', j ::
        && 0 <= i' < i && 0 <= j < |signatures|
        && env.canVerify(keys[i']) && env.verify(keys[i'], signatures[j], signedBytes)
    {
      var k := keys[i];
      if !env.canVerify(k) {
        continue;
      }
      var j := 0;
      while j < |signatures|
        invariant 0 <= j <= |signatures|
        invariant forall j' :: 0 <= j' < j ==> !env.verify(k, signatures[j'], signedBytes)
      {
        if env.verify(k, signatures[j], signedBytes) {
          verified := true;
          break;
        }
        j := j + 1;
      }
    }
    if !verified {
      return Err(CouldNotVerifySignature);
    }
    r := Ok(());
  }

  // ---------------------------------------------------------------------
  // What Unseal accepts
  // ---------------------------------------------------------------------

  /** A verifier can be built for `pub` and it accepts `sig` over `data`. */
  predicate Accepts(env: Collaborators, pub: EcdsaPublicKey, sig: Bytes, data: Bytes) {
    env.canVerify(pub) && env.verify(pub, sig, data)
  }

  /** The intermediate key is certified by the root keys: all its signatures
      are base64, every root key is valid now and parses as ECDSA, and some
      root key accepts some signature over sender, version and signed key. */
  predicate IntermediateKeyCertified<M>(r: PaymentMethodTokenRecipient<M>, env: Collaborators,
                                        key: IntermediateSigningKey, now: int, rootKeys: seq<Key>) {
    && (forall s :: s in key.signatures ==> env.base64(s).Ok?)
    && (forall k :: k in rootKeys ==> ParsePublicKey(env, k, now).Ok?)
    && exists k, s :: k in rootKeys && s in key.signatures &&
         Accepts(env, ParsePublicKey(env, k, now).value, env.base64(s).value, IntermediateKeySignedBytes(r, key))
  }

  /** The message is signed by the intermediate key: that key decodes, is
      valid now and parses as ECDSA, the signature is base64, and the key
      accepts it over sender, recipient, version and payload. */
  predicate MessageSignedByIntermediate<M>(r: PaymentMethodTokenRecipient<M>, env: Collaborators,
                                           msg: SignedMessage, now: int) {
    var imk := env.keysJson.key(msg.intermediateSigningKey.signedKey);
    && imk.Ok?
    && ParsePublicKey(env, imk.value, now).Ok?
    && env.base64(msg.signature).Ok?
    && Accepts(env, ParsePublicKey(env, imk.value, now).value, env.base64(msg.signature).value, MessageSignedBytes(r, msg))
  }

  /** The whole chain holds for the sealed message. */
  predicate Accepted<M>(r: PaymentMethodTokenRecipient<M>, env: Collaborators, sealedMessage: Bytes,
                        now: int, signingKeys: Result<seq<Key>>) {
    var parsed := env.signedMessageJson(sealedMessage);
    && parsed.Ok?
    && parsed.value.protocolVersion == EC_V2_SIGNING_ONLY
    && signingKeys.Ok?
    && IntermediateKeyCertified(r, env, parsed.value.intermediateSigningKey, now, signingKeys.value)
    && MessageSignedByIntermediate(r, env, parsed.value, now)
  }

  /** verify() over index pairs is the same as over members. */
  lemma AnyPairVerifiesMembers(env: Collaborators, signatures: seq<Bytes>, signedBytes: Bytes, keys: seq<EcdsaPublicKey>)
    ensures AnyPairVerifies(env, signatures, signedBytes, keys) <==>
      exists k, s :: k in keys && s in signatures && Accepts(env, k, s, signedBytes)
  {
    if exists k, s :: k in keys && s in signatures && Accepts(env, k, s, signedBytes) {
      var k, s :| k in keys && s in signatures && Accepts(env, k, s, signedBytes);
      var i :| 0 <= i < |keys| && keys[i] == k;
      var j :| 0 <= j < |signatures| && signatures[j] == s;
      assert env.canVerify(keys[i]) && env.verify(keys[i], signatures[j], signedBytes);
    }
    if AnyPairVerifies(env, signatures, signedBytes, keys) {
      var i, j :| 0 <= i < |keys| && 0 <= j < |signatures| &&
        env.canVerify(keys[i]) && env.verify(keys[i], signatures[j], signedBytes);
      assert keys[i] in keys && signatures[j] in signatures && Accepts(env, keys[i], signatures[j], signedBytes);
    }
  }

  /** The pairs verify() tries are the pairs of a root key and a signature
      of the intermediate key, after decoding. */
  lemma PairsOfDecoded(env: Collaborators, rawSigs: seq<Bytes>, keys: seq<Key>, now: int, bytes: Bytes)
    requires DecodedSignatures(env, rawSigs).Ok? && ParsedPublicKeys(env, keys, now).Ok?
    ensures forall s :: s in rawSigs ==> env.base64(s).Ok?
    ensures forall k :: k in keys ==> ParsePublicKey(env, k, now).Ok?
    ensures AnyPairVerifies(env, DecodedSignatures(env, rawSigs).value, bytes, ParsedPublicKeys(env, keys, now).value) <==>
      exists k, s :: k in keys && s in rawSigs && Accepts(env, ParsePublicKey(env, k, now).value, env.base64(s).value, bytes)
  {
    MapAllOk(env.base64, rawSigs);
    MapAllOk(KeyParser(env, now), keys);
    var sigs := DecodedSignatures(env, rawSigs).value;
    var pubs := ParsedPublicKeys(env, keys, now).value;
    AnyPairVerifiesMembers(env, sigs, bytes, pubs);
    if exists k, s :: k in keys && s in rawSigs && Accepts(env, ParsePublicKey(env, k, now).value, env.base64(s).value, bytes) {
      PairsForward(env, rawSigs, keys, now, bytes, sigs, pubs);
    }
    if exists pk, ps :: pk in pubs && ps in sigs && Accepts(env, pk, ps, bytes) {
      PairsBackward(env, rawSigs, keys, now, bytes, sigs, pubs);
    }
  }

  /** A member pair that verifies is a decoded pair that verifies. */
  lemma PairsForward(env: Collaborators, rawSigs: seq<Bytes>, keys: seq<Key>, now: int, bytes: Bytes,
                     sigs: seq<Bytes>, pubs: seq<EcdsaPublicKey>)
    requires |sigs| == |rawSigs| && forall j :: 0 <= j < |rawSigs| ==> env.base64(rawSigs[j]).Ok? && sigs[j] == env.base64(rawSigs[j]).value
    requires |pubs| == |keys| && forall i :: 0 <= i < |keys| ==> ParsePublicKey(env, keys[i], now).Ok? && pubs[i] == ParsePublicKey(env, keys[i], now).value
    requires exists k, s ::
      && k in keys && s in rawSigs && ParsePublicKey(env, k, now).Ok? && env.base64(s).Ok?
      && Accepts(env, ParsePublicKey(env, k, now).value, env.base64(s).value, bytes)
    ensures exists pk, ps :: pk in pubs && ps in sigs && Accepts(env, pk, ps, bytes)
  {
    var k, s :| k in keys && s in rawSigs && ParsePublicKey(env, k, now).Ok? && env.base64(s).Ok? &&
      Accepts(env, ParsePublicKey(env, k, now).value, env.base64(s).value, bytes);
    var i :| 0 <= i < |keys| && keys[i] == k;
    var j :| 0 <= j < |rawSigs| && rawSigs[j] == s;
    assert pubs[i] in pubs && sigs[j] in sigs;
  }

  /** A decoded pair that verifies comes from a member pair that verifies. */
  lemma PairsBackward(env: Collaborators, rawSigs: seq<Bytes>, keys: seq<Key>, now: int, bytes: Bytes,
                      sigs: seq<Bytes>, pubs: seq<EcdsaPublicKey>)
    requires |sigs| == |rawSigs| && forall j :: 0 <= j < |rawSigs| ==> env.base64(rawSigs[j]).Ok? && sigs[j] == env.base64(rawSigs[j]).value
    requires |pubs| == |keys| && forall i :: 0 <= i < |keys| ==> ParsePublicKey(env, keys[i], now).Ok? && pubs[i] == ParsePublicKey(env, keys[i], now).value
    requires exists pk, ps :: pk in pubs && ps in sigs && Accepts(env, pk, ps, bytes)
    ensures exists k, s ::
      && k in keys && s in rawSigs && ParsePublicKey(env, k, now).Ok? && env.base64(s).Ok?
      && Accepts(env, ParsePublicKey(env, k, now).value, env.base64(s).value, bytes)
  {
    var pk, ps :| pk in pubs && ps in sigs && Accepts(env, pk, ps, bytes);
    var i :| 0 <= i < |pubs| && pubs[i] == pk;
    var j :| 0 <= j < |sigs| && sigs[j] == ps;
    assert keys[i] in keys && rawSigs[j] in rawSigs;
  }

  /** verifyIntermediateSigningKey succeeds exactly when the keys manager
      answers with keys that certify the intermediate key. */
  lemma VerifyIntermediateSigningKeyOk<M>(r: PaymentMethodTokenRecipient<M>, env: Collaborators,
                                          key: IntermediateSigningKey, now: int, signingKeys: Result<seq<Key>>)
    ensures VerifyIntermediateSigningKey(r, env, key, now, signingKeys).Ok? <==>
      signingKeys.Ok? && IntermediateKeyCertified(r, env, key, now, signingKeys.value)
  {
    MapAllOk(env.base64, key.signatures);
    if signingKeys.Ok? {
      MapAllOk(KeyParser(env, now), signingKeys.value);
      if DecodedSignatures(env, key.signatures).Ok? && ParsedPublicKeys(env, signingKeys.value, now).Ok? {
        PairsOfDecoded(env, key.signatures, signingKeys.value, now, IntermediateKeySignedBytes(r, key));
      }
    }
  }

  /** Unseal returns the payload exactly when the whole chain holds, and
      then returns it verbatim. */
  lemma UnsealOk<M>(r: PaymentMethodTokenRecipient<M>, env: Collaborators, sealedMessage: Bytes,
                    now: int, signingKeys: Result<seq<Key>>)
    ensures Unseal(r, env, sealedMessage, now, signingKeys).Ok? <==> Accepted(r, env, sealedMessage, now, signingKeys)
    ensures Unseal(r, env, sealedMessage, now, signingKeys).Ok? ==>
      Unseal(r, env, sealedMessage, now, signingKeys).value == env.signedMessageJson(sealedMessage).value.signedMessage
  {
    var parsed := env.signedMessageJson(sealedMessage);
    if parsed.Ok? && parsed.value.protocolVersion == EC_V2_SIGNING_ONLY {
      var msg := parsed.value;
      VerifyIntermediateSigningKeyOk(r, env, msg.intermediateSigningKey, now, signingKeys);
      var imk := env.keysJson.key(msg.intermediateSigningKey.signedKey);
      if imk.Ok? {
        MapAllOk(KeyParser(env, now), [imk.value]);
        if ParsedPublicKeys(env, [imk.value], now).Ok? && env.base64(msg.signature).Ok? {
          var pubs := ParsedPublicKeys(env, [imk.value], now).value;
          AnyPairVerifiesMembers(env, [env.base64(msg.signature).value], MessageSignedBytes(r, msg), pubs);
        }
      }
    }
  }

  /** A sealed message that is not valid JSON is rejected with the parser's error. */
  lemma MalformedMessageRejected<M>(r: PaymentMethodTokenRecipient<M>, env: Collaborators, sealedMessage: Bytes,
                                    now: int, signingKeys: Result<seq<Key>>)
    requires env.signedMessageJson(sealedMessage).Err?
    ensures Unseal(r, env, sealedMessage, now, signingKeys) == Err(env.signedMessageJson(sealedMessage).error)
  {
  }

  /** Any protocol version other than ECv2SigningOnly in the message is
      rejected, whatever the recipient's configuration and whatever the keys. */
  lemma UnsupportedVersionRejected<M>(r: PaymentMethodTokenRecipient<M>, env: Collaborators, sealedMessage: Bytes,
                                      now: int, signingKeys: Result<seq<Key>>)
    requires env.signedMessageJson(sealedMessage).Ok?
    requires env.signedMessageJson(sealedMessage).value.protocolVersion != EC_V2_SIGNING_ONLY
    ensures Unseal(r, env, sealedMessage, now, signingKeys) == Err(UnsupportedProtocolVersion)
  {
  }

  /** When Unseal stops before the keys manager, the keys play no part. */
  lemma KeysIrrelevantUnlessReached<M>(r: PaymentMethodTokenRecipient<M>, env: Collaborators, sealedMessage: Bytes,
                                       now: int, keys1: Result<seq<Key>>, keys2: Result<seq<Key>>)
    requires !ReachesKeysManager(env, sealedMessage)
    ensures Unseal(r, env, sealedMessage, now, keys1) == Unseal(r, env, sealedMessage, now, keys2)
    ensures Unseal(r, env, sealedMessage, now, keys1).Err?
  {
  }

  /** An undecodable intermediate-key signature is reported as the first
      such signature's decoding error. */
  lemma UndecodableSignatureRejected<M>(r: PaymentMethodTokenRecipient<M>, env: Collaborators, sealedMessage: Bytes,
                                        now: int, signingKeys: Result<seq<Key>>, k: nat)
    requires env.signedMessageJson(sealedMessage).Ok?
    requires env.signedMessageJson(sealedMessage).value.protocolVersion == EC_V2_SIGNING_ONLY
    requires var sigs := env.signedMessageJson(sealedMessage).value.intermediateSigningKey.signatures;
      k < |sigs| && env.base64(sigs[k]).Err? && forall i :: 0 <= i < k ==> env.base64(sigs[i]).Ok?
    ensures var sigs := env.signedMessageJson(sealedMessage).value.intermediateSigningKey.signatures;
      Unseal(r, env, sealedMessage, now, signingKeys) == Err(env.base64(sigs[k]).error)
  {
    var sigs := env.signedMessageJson(sealedMessage).value.intermediateSigningKey.signatures;
    MapAllFirstError(env.base64, sigs, k);
  }

  /** Once reached, the keys manager's error is what Unseal reports. */
  lemma KeysManagerErrorPropagates<M>(r: PaymentMethodTokenRecipient<M>, env: Collaborators, sealedMessage: Bytes,
                                      now: int, e: Error)
    requires ReachesKeysManager(env, sealedMessage)
    ensures Unseal(r, env, sealedMessage, now, Err(e)) == Err(e)
  {
  }

  /** An expired root key makes the whole token fail, even if another root
      key would verify it. */
  lemma ExpiredRootKeyRejects<M>(r: PaymentMethodTokenRecipient<M>, env: Collaborators, sealedMessage: Bytes,
                                 now: int, keys: seq<Key>, k: Key)
    requires k in keys && IsValid(k, now).Err?
    ensures Unseal(r, env, sealedMessage, now, Ok(keys)).Err?
  {
    UnsealOk(r, env, sealedMessage, now, Ok(keys));
  }

  /** The error is ExpiredKey when the expired root key is the first root key
      that fails to parse and the token gets as far as the keys manager. */
  lemma FirstExpiredRootKeyIsReported<M>(r: PaymentMethodTokenRecipient<M>, env: Collaborators, sealedMessage: Bytes,
                                         now: int, keys: seq<Key>, i: nat)
    requires ReachesKeysManager(env, sealedMessage)
    requires i < |keys| && IsValid(keys[i], now).Err?
    requires forall j :: 0 <= j < i ==> ParsePublicKey(env, keys[j], now).Ok?
    ensures Unseal(r, env, sealedMessage, now, Ok(keys)) == Err(IsValid(keys[i], now).error)
  {
    MapAllFirstError(KeyParser(env, now), keys, i);
  }

  /** An expired intermediate key makes the token fail. */
  lemma ExpiredIntermediateKeyRejects<M>(r: PaymentMethodTokenRecipient<M>, env: Collaborators, sealedMessage: Bytes,
                                         now: int, signingKeys: Result<seq<Key>>)
    requires env.signedMessageJson(sealedMessage).Ok?
    requires var imk := env.keysJson.key(env.signedMessageJson(sealedMessage).value.intermediateSigningKey.signedKey);
      imk.Ok? && IsValid(imk.value, now).Err?
    ensures Unseal(r, env, sealedMessage, now, signingKeys).Err?
  {
    UnsealOk(r, env, sealedMessage, now, signingKeys);
  }

  /** Once the root keys have certified the intermediate key, an intermediate
      key that is not valid now is reported with its own IsValid error
      (ExpiredKey when it has expired). */
  lemma InvalidIntermediateKeyIsReported<M>(r: PaymentMethodTokenRecipient<M>, env: Collaborators, sealedMessage: Bytes,
                                            now: int, signingKeys: Result<seq<Key>>)
    requires env.signedMessageJson(sealedMessage).Ok?
    requires env.signedMessageJson(sealedMessage).value.protocolVersion == EC_V2_SIGNING_ONLY
    requires VerifyIntermediateSigningKey(r, env, env.signedMessageJson(sealedMessage).value.intermediateSigningKey,
                                          now, signingKeys).Ok?
    requires var imk := env.keysJson.key(env.signedMessageJson(sealedMessage).value.intermediateSigningKey.signedKey);
      imk.Ok? && IsValid(imk.value, now).Err?
    ensures var imk := env.keysJson.key(env.signedMessageJson(sealedMessage).value.intermediateSigningKey.signedKey);
      Unseal(r, env, sealedMessage, now, signingKeys) == Err(IsValid(imk.value, now).error)
  {
  }

  /** Neither the order of the root keys nor repetitions among them change
      whether a token is accepted. */
  lemma RootKeyOrderIrrelevant<M>(r: PaymentMethodTokenRecipient<M>, env: Collaborators, sealedMessage: Bytes,
                                  now: int, keys1: seq<Key>, keys2: seq<Key>)
    requires forall k :: k in keys1 <==> k in keys2
    ensures Unseal(r, env, sealedMessage, now, Ok(keys1)).Ok? <==> Unseal(r, env, sealedMessage, now, Ok(keys2)).Ok?
    ensures Unseal(r, env, sealedMessage, now, Ok(keys1)).Ok? ==>
      Unseal(r, env, sealedMessage, now, Ok(keys1)) == Unseal(r, env, sealedMessage, now, Ok(keys2))
  {
    UnsealOk(r, env, sealedMessage, now, Ok(keys1));
    UnsealOk(r, env, sealedMessage, now, Ok(keys2));
    var parsed := env.signedMessageJson(sealedMessage);
    if parsed.Ok? {
      var key := parsed.value.intermediateSigningKey;
      CertifiedBySameKeys(r, env, key, now, keys1, keys2);
    }
  }

  /** Certification depends only on which root keys there are. */
  lemma CertifiedBySameKeys<M>(r: PaymentMethodTokenRecipient<M>, env: Collaborators,
                               key: IntermediateSigningKey, now: int, keys1: seq<Key>, keys2: seq<Key>)
    requires forall k :: k in keys1 <==> k in keys2
    ensures IntermediateKeyCertified(r, env, key, now, keys1) <==> IntermediateKeyCertified(r, env, key, now, keys2)
  {
    var bytes := IntermediateKeySignedBytes(r, key);
    if IntermediateKeyCertified(r, env, key, now, keys1) {
      var k, s :| k in keys1 && s in key.signatures &&
        Accepts(env, ParsePublicKey(env, k, now).value, env.base64(s).value, bytes);
      assert k in keys2;
    }
    if IntermediateKeyCertified(r, env, key, now, keys2) {
      var k, s :| k in keys2 && s in key.signatures &&
        Accepts(env, ParsePublicKey(env, k, now).value, env.base64(s).value, bytes);
      assert k in keys1;
    }
  }

  /** The message signature covers sender, recipient, protocol version and
      payload: changing any of them (a tampered payload, a token replayed to
      another recipient) changes the bytes the signature is checked over. */
  lemma MessageSignedBytesBind<M>(r1: PaymentMethodTokenRecipient<M>, msg1: SignedMessage,
                                  r2: PaymentMethodTokenRecipient<M>, msg2: SignedMessage)
    requires |r1.senderID| < TWO_POW_32 && |r1.recipientID| < TWO_POW_32 && |r1.protocolVersion| < TWO_POW_32
    requires |r2.senderID| < TWO_POW_32 && |r2.recipientID| < TWO_POW_32 && |r2.protocolVersion| < TWO_POW_32
    requires |msg1.signedMessage| < TWO_POW_32 && |msg2.signedMessage| < TWO_POW_32
    ensures MessageSignedBytes(r1, msg1) == MessageSignedBytes(r2, msg2) <==>
      && r1.senderID == r2.senderID && r1.recipientID == r2.recipientID
      && r1.protocolVersion == r2.protocolVersion && msg1.signedMessage == msg2.signedMessage
  {
    var c1 := [r1.senderID, r1.recipientID, r1.protocolVersion, msg1.signedMessage];
    var c2 := [r2.senderID, r2.recipientID, r2.protocolVersion, msg2.signedMessage];
    if MessageSignedBytes(r1, msg1) == MessageSignedBytes(r2, msg2) {
      EncodeInjective(c1, c2);
      assert c1[0] == c2[0] && c1[1] == c2[1] && c1[2] == c2[2] && c1[3] == c2[3];
    }
  }

  /** The root-key signature covers sender, protocol version and the signed
      intermediate key, and nothing else. */
  lemma IntermediateKeySignedBytesBind<M>(r1: PaymentMethodTokenRecipient<M>, key1: IntermediateSigningKey,
                                          r2: PaymentMethodTokenRecipient<M>, key2: IntermediateSigningKey)
    requires |r1.senderID| < TWO_POW_32 && |r1.protocolVersion| < TWO_POW_32 && |key1.signedKey| < TWO_POW_32
    requires |r2.senderID| < TWO_POW_32 && |r2.protocolVersion| < TWO_POW_32 && |key2.signedKey| < TWO_POW_32
    ensures IntermediateKeySignedBytes(r1, key1) == IntermediateKeySignedBytes(r2, key2) <==>
      r1.senderID == r2.senderID && r1.protocolVersion == r2.protocolVersion && key1.signedKey == key2.signedKey
  {
    var c1 := [r1.senderID, r1.protocolVersion, key1.signedKey];
    var c2 := [r2.senderID, r2.protocolVersion, key2.signedKey];
    if IntermediateKeySignedBytes(r1, key1) == IntermediateKeySignedBytes(r2, key2) {
      EncodeInjective(c1, c2);
      assert c1[0] == c2[0] && c1[1] == c2[1] && c1[2] == c2[2];
    }
  }

  /** Nor does the order of the intermediate key's signatures, or repetitions
      among them, change whether it is certified. */
  lemma SignatureOrderIrrelevant<M>(r: PaymentMethodTokenRecipient<M>, env: Collaborators,
                                    key1: IntermediateSigningKey, key2: IntermediateSigningKey, now: int, rootKeys: seq<Key>)
    requires key1.signedKey == key2.signedKey
    requires forall s :: s in key1.signatures <==> s in key2.signatures
    ensures IntermediateKeyCertified(r, env, key1, now, rootKeys) <==> IntermediateKeyCertified(r, env, key2, now, rootKeys)
  {
    var bytes := IntermediateKeySignedBytes(r, key1);
    assert bytes == IntermediateKeySignedBytes(r, key2);
    if IntermediateKeyCertified(r, env, key1, now, rootKeys) {
      var k, s :| k in rootKeys && s in key1.signatures &&
        Accepts(env, ParsePublicKey(env, k, now).value, env.base64(s).value, bytes);
      assert s in key2.signatures;
    }
    if IntermediateKeyCertified(r, env, key2, now, rootKeys) {
      var k, s :| k in rootKeys && s in key2.signatures &&
        Accepts(env, ParsePublicKey(env, k, now).value, env.base64(s).value, bytes);
      assert s in key1.signatures;
    }
  }

  // ---------------------------------------------------------------------
  // Unseal with the Google Pay keys manager and downloader
  // ---------------------------------------------------------------------

  /** The recipient wired to a GPayPublicKeysManager over a GPayKeysDownloader. */
  type GPayRecipient = PaymentMethodTokenRecipient<GPayPublicKeysManager<KeysDownloader.GPayKeysDownloader>>

  /** Unseal as the Go code runs it, step by step, with the keys manager's
      GetSigningKeys calling the downloader's Download at instant `now`;
      `fetch` is what an HTTP fetch would return if Download makes one. The
      result is the pure Unseal given what GetSigningKeys answers, and the
      downloader's cache changes only if Unseal gets as far as the keys
      manager. */
  method UnsealWithDownloader(r: GPayRecipient, env: Collaborators, sealedMessage: Bytes,
                              now: int, fetch: KeysDownloader.FetchResult) returns (res: Result<Bytes>)
    requires r.keysManager.Some?
    modifies r.keysManager.value.downloader
    ensures var d := r.keysManager.value.downloader;
      var step := KeysDownloader.DownloadStep(old(d.Entry()), now, fetch);
      res == Unseal(r, env, sealedMessage, now, GetSigningKeys(step.result, env.keysJson))
    ensures var d := r.keysManager.value.downloader;
      var step := KeysDownloader.DownloadStep(old(d.Entry()), now, fetch);
      d.Entry() == if ReachesKeysManager(env, sealedMessage) then step.entry else old(d.Entry())
  {
    var d := r.keysManager.value.downloader;
    var parsed := env.signedMessageJson(sealedMessage);
    if parsed.Err? {
      return Err(parsed.error);
    }
    var m := parsed.value;
    if m.protocolVersion != EC_V2_SIGNING_ONLY {
      return Err(UnsupportedProtocolVersion);
    }
    // verifyIntermediateSigningKey
    var signatures := DecodeSignatures(env, m.intermediateSigningKey.signatures);
    if signatures.Err? {
      return Err(signatures.error);
    }
    var downloaded := d.Download(now, fetch);
    var keyObjects := GetSigningKeys(downloaded, env.keysJson);
    if keyObjects.Err? {
      return Err(keyObjects.error);
    }
    var verifyingKeys := ParsePublicKeys(env, keyObjects.value, now);
    if verifyingKeys.Err? {
      return Err(verifyingKeys.error);
    }
    var verified := Verify(env, signatures.value, IntermediateKeySignedBytes(r, m.intermediateSigningKey), verifyingKeys.value);
    if verified.Err? {
      return Err(verified.error);
    }
    // the rest of unsealECv2SigningOnly
    var imkObject := env.keysJson.key(m.intermediateSigningKey.signedKey);
    if imkObject.Err? {
      return Err(imkObject.error);
    }
    var imk := ParsePublicKeys(env, [imkObject.value], now);
    if imk.Err? {
      return Err(imk.error);
    }
    var sign := env.base64(m.signature);
    if sign.Err? {
      return Err(sign.error);
    }
    verified := Verify(env, [sign.value], MessageSignedBytes(r, m), imk.value);
    if verified.Err? {
      return Err(verified.error);
    }
    res := Ok(m.signedMessage);
  }
}
