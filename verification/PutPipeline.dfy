/** Encrypting an object, and what is written next to it. */
module PutPipeline {
  import opened Wrappers
  import opened AesGcm
  import opened Materials
  import opened Metadata
  import opened Kms

  /** The cipher an object is written with and the metadata that lets it be read. */
  datatype Encryption = Encryption(gcm: Gcm, metadata: ObjectMetadata)

  /** Cipher and metadata for a data key; `context` is the one the key was generated under, and
      `nonce` the random IV or message id. Single-request and multipart writes share this. */
  function Prepare(prim: Primitives, codec: Codec, suite: AlgorithmSuite, context: Dict,
                   dataKey: bytes, blob: bytes, nonce: bytes): Result<Encryption, KeyError>
  {
    if suite.AesGcmCommitKey? then
      match DeriveKeys(prim, dataKey, nonce, suite)
      case Err(e) => Err(e)
      case Ok(derived) =>
        Ok(Encryption(
             Gcm(prim, derived.encryptionKey, KC_GCM_IV, suite.SuiteIdBytes()),
             BLANK.(cipherV3 := Text("115"), wrapAlgV3 := Text("12"),
                    dataKeyV3 := Text(codec.b64encode(blob)),
                    messageIdV3 := Text(codec.b64encode(nonce)),
                    commitmentV3 := Text(codec.b64encode(derived.commitment)),
                    contextV3 := if context == map[] then Null else Object(context))))
    else
      Ok(Encryption(
           Gcm(prim, dataKey, nonce, []),
           BLANK.(dataKeyV2 := Text(codec.b64encode(blob)), wrapAlg := Text(KMS_CONTEXT),
                  iv := Text(codec.b64encode(nonce)), cekAlg := Text("AES/GCM/NoPadding"),
                  context := Object(context))))
  }

  /** What is written, field by field and byte by byte, for each of the two suites: the headers by
      their meaning, and key, IV and AAD of the cipher. Preparing fails exactly for a data key of
      the wrong length under the committing suite. */
  lemma PreparedFields(prim: Primitives, codec: Codec, context: Dict, dataKey: bytes, blob: bytes, nonce: bytes,
                       prk: bytes)
    requires |prk| == 64 && forall i :: 0 <= i < 64 ==> prk[i] == prim.hmac(nonce, dataKey, i)
    requires CEK_ALG in context
    ensures var r := Prepare(prim, codec, AesGcmNoKdf, context, dataKey, blob, nonce);
            && r.Ok? && r.value.gcm == Gcm(prim, dataKey, nonce, [])
            && Dictionary(codec, r.value.metadata) ==
                 map[DataKeyV2 := Text(codec.b64encode(blob)), WrapAlg := Text("kms+context"),
                     Iv := Text(codec.b64encode(nonce)), CekAlg := Text("AES/GCM/NoPadding"),
                     MatDesc := Text(codec.dumps(Object(context))), TagLen := Text("128")]
    ensures var r := Prepare(prim, codec, AesGcmCommitKey, context, dataKey, blob, nonce);
            && (r.Ok? <==> |dataKey| == 32)
            && (r.Ok? ==>
                  && r.value.gcm.prim == prim && r.value.gcm.aad == [0x00, 0x73]
                  && r.value.gcm.iv == [1, 1, 1, 1, 1, 1, 1, 1, 1, 1, 1, 1]
                  && |r.value.gcm.key| == 32
                  && (forall i :: 0 <= i < 32 ==> r.value.gcm.key[i] == prim.expand(prk, [0x00, 0x73] + Ascii("DERIVEKEY"), i))
                  && exists commitment: bytes ::
                       && |commitment| == 28
                       && (forall i :: 0 <= i < 28 ==> commitment[i] == prim.expand(prk, [0x00, 0x73] + Ascii("COMMITKEY"), i))
                       && Dictionary(codec, r.value.metadata) ==
                            map[CipherV3 := Text("115"), WrapAlgV3 := Text("12"), DataKeyV3 := Text(codec.b64encode(blob)),
                                MessageIdV3 := Text(codec.b64encode(nonce)), CommitmentV3 := Text(codec.b64encode(commitment)),
                                ContextV3 := Text(codec.dumps(Object(context)))])
  {
    assert context != map[];
    PlainFields(prim, codec, context, dataKey, blob, nonce);
    if |dataKey| == 32 {
      DerivedBytes(prim, dataKey, nonce, prk);
      CommittingFields(prim, codec, context, dataKey, blob, nonce);
    }
  }

  lemma PlainFields(prim: Primitives, codec: Codec, context: Dict, dataKey: bytes, blob: bytes, nonce: bytes)
    ensures Dictionary(codec, Prepare(prim, codec, AesGcmNoKdf, context, dataKey, blob, nonce).value.metadata) ==
            map[DataKeyV2 := Text(codec.b64encode(blob)), WrapAlg := Text("kms+context"),
                Iv := Text(codec.b64encode(nonce)), CekAlg := Text("AES/GCM/NoPadding"),
                MatDesc := Text(codec.dumps(Object(context))), TagLen := Text("128")]
  {
  }

  lemma CommittingFields(prim: Primitives, codec: Codec, context: Dict, dataKey: bytes, blob: bytes, nonce: bytes)
    requires |dataKey| == 32 && context != map[]
    ensures var commitment := DeriveKeys(prim, dataKey, nonce, AesGcmCommitKey).value.commitment;
            Dictionary(codec, Prepare(prim, codec, AesGcmCommitKey, context, dataKey, blob, nonce).value.metadata) ==
            map[CipherV3 := Text("115"), WrapAlgV3 := Text("12"), DataKeyV3 := Text(codec.b64encode(blob)),
                MessageIdV3 := Text(codec.b64encode(nonce)), CommitmentV3 := Text(codec.b64encode(commitment)),
                ContextV3 := Text(codec.dumps(Object(context)))]
  {
  }

  datatype PutError = NoDataKey(reason: KeyringError) | NotPrepared(why: KeyError)

  /** The stored metadata: the user's own, with the client's written over it. */
  function StoredHeaders(codec: Codec, user: map<Header, string>, m: ObjectMetadata): Headers {
    TextHeaders(user) + Dictionary(codec, m)
  }

  /** What KMS knows after a data key was wrapped for this context and suite. */
  function WithDataKey(table: KmsTable, blob: bytes, context: Dict, suite: AlgorithmSuite, key: bytes): KmsTable {
    table[blob := Entry(BoundContext(context, suite), key)]
  }

  /** Get a data key for the caller's context from the keyring, and prepare cipher and metadata. */
  method Obtain(keyring: KmsKeyring, prim: Primitives, codec: Codec, suite: AlgorithmSuite, context: Dict,
                blob: bytes, key: bytes, nonce: bytes)
    returns (r: Result<Encryption, PutError>)
    requires blob !in keyring.kms.table
    modifies keyring.kms
    ensures r.Err? && r.error.NoDataKey? <==> !old(keyring.kms.NextSucceeds())
    ensures r.Err? && r.error.NoDataKey? ==> keyring.kms.table == old(keyring.kms.table)
    ensures !(r.Err? && r.error.NoDataKey?) ==>
              && keyring.kms.table == WithDataKey(old(keyring.kms.table), blob, context, suite, key)
              && match Prepare(prim, codec, suite, BoundContext(context, suite), key, blob, nonce) {
                   case Ok(e) => r == Ok(e)
                   case Err(why) => r == Err(NotPrepared(why))
                 }
  {
    var materials := new EncryptionMaterials(suite, context);
    var generated := keyring.OnEncrypt(materials, blob, key);
    if generated.Err? {
      return Err(NoDataKey(generated.error));
    }
    var prepared := Prepare(prim, codec, suite, materials.context, materials.plaintextDataKey.value,
                            materials.encryptedDataKey.value.blob, nonce);
    return if prepared.Ok? then Ok(prepared.value) else Err(NotPrepared(prepared.error));
  }

  /** PutObject: obtain cipher and metadata, encrypt, and serialise the metadata. */
  method Encrypt(keyring: KmsKeyring, prim: Primitives, codec: Codec, suite: AlgorithmSuite, context: Dict,
                 plaintext: bytes, blob: bytes, key: bytes, nonce: bytes)
    returns (r: Result<(bytes, Headers), PutError>)
    requires blob !in keyring.kms.table
    modifies keyring.kms
    ensures r.Err? && r.error.NoDataKey? <==> !old(keyring.kms.NextSucceeds())
    ensures r.Err? && r.error.NoDataKey? ==> keyring.kms.table == old(keyring.kms.table)
    ensures !(r.Err? && r.error.NoDataKey?) ==>
              && keyring.kms.table == WithDataKey(old(keyring.kms.table), blob, context, suite, key)
              && match Prepare(prim, codec, suite, BoundContext(context, suite), key, blob, nonce) {
                   case Ok(e) => r == Ok((e.gcm.Seal(plaintext), Dictionary(codec, e.metadata)))
                   case Err(why) => r == Err(NotPrepared(why))
                 }
  {
    var obtained := Obtain(keyring, prim, codec, suite, context, blob, key, nonce);
    if obtained.Err? {
      return Err(obtained.error);
    }
    var headers := ToDict(codec, obtained.value.metadata);
    return Ok((obtained.value.gcm.Seal(plaintext), headers));
  }
}
