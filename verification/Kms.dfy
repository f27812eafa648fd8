/** The KMS keyring: data keys bound to an encryption context. */
module Kms {
  import opened Wrappers
  import opened AesGcm
  import opened Materials
  import opened Metadata

  const CEK_ALG := "aws:x-amz-cek-alg"
  const CMK_ID := "kms_cmk_id"

  const KMS_CONTEXT := "kms+context"
  const KMS_V1 := "kms"

  /** What KMS knows of a data key it wrapped. */
  datatype Entry = Entry(context: Dict, key: bytes)

  type KmsTable = map<bytes, Entry>

  datatype KeyringError =
    | AlreadyHasKey
    | NotOneDataKey
    | StoredContextNotADictionary
    | ReservedKeyInRequest
    | ContextMismatch
    | NoSuite
    | AlgorithmMismatch
    | LegacyWrappingDisabled
    | ContextNotSupported
    | UnknownWrapping
    | KmsRejected

  /** The wrapped key, and under which wrapping algorithm the object claims it is. */
  datatype EncryptedDataKey = EncryptedDataKey(info: Value, blob: bytes)

  /** A stored context without the two keys reserved for the client. */
  function WithoutReserved(context: Dict): Dict {
    context - {CMK_ID, CEK_ALG}
  }

  /** What may be used to unwrap: the checks made before KMS is asked. */
  function CheckWrapping(legacyWrapping: bool, info: Value, stored: Dict, request: Dict, suite: Option<AlgorithmSuite>)
    : Result<(), KeyringError>
  {
    if info == Text(KMS_CONTEXT) then
      if CEK_ALG in request then Err(ReservedKeyInRequest)
      else if WithoutReserved(stored) != request then Err(ContextMismatch)
      else if suite == None then Err(NoSuite)
      else if Lookup(stored, CEK_ALG) != Text(suite.value.ContentCipher()) then Err(AlgorithmMismatch)
      else Ok(())
    else if info == Text(KMS_V1) then
      if !legacyWrapping then Err(LegacyWrappingDisabled)
      else if request != map[] then Err(ContextNotSupported)
      else Ok(())
    else
      Err(UnknownWrapping)
  }

  /** The data key an object gives, with its stored context and the caller's. */
  function UnwrapDataKey(table: KmsTable, legacyWrapping: bool, edk: EncryptedDataKey,
                         stored: Value, request: Dict, suite: Option<AlgorithmSuite>): Result<bytes, KeyringError>
  {
    if !stored.Object? then Err(StoredContextNotADictionary) else
    var _ :- CheckWrapping(legacyWrapping, edk.info, stored.entries, request, suite);
    if edk.blob in table && table[edk.blob].context == stored.entries then
      Ok(table[edk.blob].key)
    else
      Err(KmsRejected)
  }

  /** The context a data key is generated under: the caller's, with the suite's cipher name. */
  function BoundContext(context: Dict, suite: AlgorithmSuite): Dict {
    context[CEK_ALG := Text(suite.ContentCipher())]
  }

  /** A data key generated for suite s and context c is released under kms+context exactly for
      the stored context it was generated with, the suite s, and the request that is c without
      the reserved keys. */
  lemma UnwrapsExactlyAsBound(table: KmsTable, legacyWrapping: bool, blob: bytes, context: Dict, suite: AlgorithmSuite,
                              stored: Value, request: Dict, selected: AlgorithmSuite)
    requires blob in table && table[blob].context == BoundContext(context, suite)
    ensures UnwrapDataKey(table, legacyWrapping, EncryptedDataKey(Text(KMS_CONTEXT), blob), stored, request, Some(selected)).Ok?
            <==> && stored == Object(BoundContext(context, suite))
                 && selected == suite
                 && request == WithoutReserved(context)
  {
    assert WithoutReserved(BoundContext(context, suite)) == WithoutReserved(context);
    ContentCipherIdentifiesSuite(suite.ContentCipher(), selected);
    ContentCipherIdentifiesSuite(suite.ContentCipher(), suite);
    assert CEK_ALG !in WithoutReserved(context);
  }

  // ---- The keyring working on materials in place ----

  /** KMS: which of its calls to generate a data key succeed is given by a schedule. */
  class KmsService {
    const answers: nat -> bool
    var calls: nat
    var table: KmsTable

    constructor (answers: nat -> bool)
      ensures this.answers == answers && calls == 0 && table == map[]
    {
      this.answers := answers;
      calls, table := 0, map[];
    }

    /** The next call succeeds. */
    predicate NextSucceeds()
      reads this
    {
      answers(calls)
    }

    /** KMS GenerateDataKey: a new key, wrapped in a blob never seen before; or KMS refuses. */
    method GenerateDataKey(context: Dict, blob: bytes, key: bytes) returns (ok: bool)
      requires blob !in table
      modifies this
      ensures ok == old(NextSucceeds()) && calls == old(calls) + 1
      ensures table == if ok then old(table)[blob := Entry(context, key)] else old(table)
    {
      ok := answers(calls);
      calls := calls + 1;
      if ok {
        table := table[blob := Entry(context, key)];
      }
    }

    method Decrypt(blob: bytes, context: Dict) returns (key: Option<bytes>)
      ensures key == if blob in table && table[blob].context == context then Some(table[blob].key) else None
    {
      key := if blob in table && table[blob].context == context then Some(table[blob].key) else None;
    }
  }

  class EncryptionMaterials {
    const suite: AlgorithmSuite
    var context: Dict
    var encryptedDataKey: Option<EncryptedDataKey>
    var plaintextDataKey: Option<bytes>

    constructor (suite: AlgorithmSuite, context: Dict)
      ensures this.suite == suite && this.context == context
      ensures encryptedDataKey == None && plaintextDataKey == None
    {
      this.suite, this.context := suite, context;
      encryptedDataKey, plaintextDataKey := None, None;
    }
  }

  class DecryptionMaterials {
    const iv: Option<bytes>
    const encryptedDataKeys: seq<EncryptedDataKey>
    const contextStored: Value
    const contextFromRequest: Dict
    const suite: Option<AlgorithmSuite>
    var plaintextDataKey: Option<bytes>

    constructor (iv: Option<bytes>, encryptedDataKeys: seq<EncryptedDataKey>, contextStored: Value,
                 contextFromRequest: Dict, suite: Option<AlgorithmSuite>)
      ensures this.iv == iv && this.encryptedDataKeys == encryptedDataKeys && this.contextStored == contextStored
      ensures this.contextFromRequest == contextFromRequest && this.suite == suite && plaintextDataKey == None
    {
      this.iv, this.encryptedDataKeys, this.contextStored := iv, encryptedDataKeys, contextStored;
      this.contextFromRequest, this.suite := contextFromRequest, suite;
      plaintextDataKey := None;
    }
  }

  class KmsKeyring {
    const kms: KmsService
    const enableLegacyWrapping: bool

    constructor (kms: KmsService, enableLegacyWrapping: bool)
      ensures this.kms == kms && this.enableLegacyWrapping == enableLegacyWrapping
    {
      this.kms, this.enableLegacyWrapping := kms, enableLegacyWrapping;
    }

    /** Bind the suite into the context, then get a data key for it. When KMS refuses, the context
        stays bound and the materials get no key. */
    method OnEncrypt(m: EncryptionMaterials, blob: bytes, key: bytes) returns (r: Result<(), KeyringError>)
      requires blob !in kms.table
      modifies m, kms
      ensures r.Ok? <==> old(kms.NextSucceeds())
      ensures m.context == BoundContext(old(m.context), m.suite)
      ensures r.Ok? ==>
                && m.encryptedDataKey == Some(EncryptedDataKey(Text(KMS_CONTEXT), blob)) && m.plaintextDataKey == Some(key)
                && kms.table == old(kms.table)[blob := Entry(BoundContext(old(m.context), m.suite), key)]
      ensures r.Err? ==>
                && r == Err(KmsRejected) && kms.table == old(kms.table)
                && m.encryptedDataKey == old(m.encryptedDataKey) && m.plaintextDataKey == old(m.plaintextDataKey)
    {
      m.context := m.context[CEK_ALG := Text(m.suite.ContentCipher())];
      var ok := kms.GenerateDataKey(m.context, blob, key);
      if !ok {
        return Err(KmsRejected);
      }
      m.encryptedDataKey := Some(EncryptedDataKey(Text(KMS_CONTEXT), blob));
      m.plaintextDataKey := Some(key);
      return Ok(());
    }

    /** Put the data key into the materials, or leave them as they are. */
    method OnDecrypt(m: DecryptionMaterials) returns (r: Result<(), KeyringError>)
      modifies m
      ensures old(m.plaintextDataKey).Some? ==> r == Err(AlreadyHasKey)
      ensures old(m.plaintextDataKey) == None && |m.encryptedDataKeys| != 1 ==> r == Err(NotOneDataKey)
      ensures old(m.plaintextDataKey) == None && |m.encryptedDataKeys| == 1 ==>
                match UnwrapDataKey(kms.table, enableLegacyWrapping, m.encryptedDataKeys[0],
                                    m.contextStored, m.contextFromRequest, m.suite) {
                  case Ok(key) => r == Ok(()) && m.plaintextDataKey == Some(key)
                  case Err(e) => r == Err(e)
                }
      ensures r.Err? ==> m.plaintextDataKey == old(m.plaintextDataKey)
    {
      if m.plaintextDataKey.Some? {
        return Err(AlreadyHasKey);
      }
      if |m.encryptedDataKeys| != 1 {
        return Err(NotOneDataKey);
      }
      if !m.contextStored.Object? {
        return Err(StoredContextNotADictionary);
      }
      var edk, stored := m.encryptedDataKeys[0], m.contextStored.entries;
      if edk.info == Text(KMS_CONTEXT) {
        if CEK_ALG in m.contextFromRequest {
          return Err(ReservedKeyInRequest);
        }
        var copy := stored;
        copy := copy - {CMK_ID};
        copy := copy - {CEK_ALG};
        assert copy == WithoutReserved(stored);
        if copy != m.contextFromRequest {
          return Err(ContextMismatch);
        }
        if m.suite == None {
          return Err(NoSuite);
        }
        if Lookup(stored, CEK_ALG) != Text(m.suite.value.ContentCipher()) {
          return Err(AlgorithmMismatch);
        }
      } else if edk.info == Text(KMS_V1) {
        if !enableLegacyWrapping {
          return Err(LegacyWrappingDisabled);
        }
        if m.contextFromRequest != map[] {
          return Err(ContextNotSupported);
        }
      } else {
        return Err(UnknownWrapping);
      }
      var key := kms.Decrypt(edk.blob, stored);
      if key == None {
        return Err(KmsRejected);
      }
      m.plaintextDataKey := key;
      return Ok(());
    }
  }
}
