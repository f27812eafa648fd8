/** Algorithm suites, commitment policies, client configuration and key derivation. */
module Materials {
  import opened Wrappers
  import opened AesGcm

  /** The three suites; the members below are the columns of the source's table. */
  datatype AlgorithmSuite =
    | AesCbcNoKdf            // ALG_AES_256_CBC_IV16_NO_KDF
    | AesGcmNoKdf            // ALG_AES_256_GCM_IV12_TAG16_NO_KDF
    | AesGcmCommitKey        // ALG_AES_256_GCM_HKDF_SHA512_COMMIT_KEY
  {
    predicate IsLegacy() {
      AesCbcNoKdf?
    }

    predicate SupportsKeyCommitment() {
      AesGcmCommitKey?
    }

    /** The value stored as x-amz-cek-alg, or x-amz-c for the committing suite. */
    function ContentCipher(): string {
      match this
      case AesCbcNoKdf => "AES/CBC/PKCS5Padding"
      case AesGcmNoKdf => "AES/GCM/NoPadding"
      case AesGcmCommitKey => "115"
    }

    function SuiteIdBytes(): bytes {
      if AesGcmCommitKey? then [0x00, 0x73] else []
    }

    /** How long the random IV or message id of an encryption is. */
    function NonceLength(): nat {
      match this
      case AesCbcNoKdf => 16
      case AesGcmNoKdf => 12
      case AesGcmCommitKey => COMMITMENT_LENGTH
    }
  }

  const DATA_KEY_LENGTH: nat := 32
  const COMMITMENT_LENGTH: nat := 28

  /** The IV of key-committing GCM: twelve bytes 0x01. */
  const KC_GCM_IV: bytes := [1, 1, 1, 1, 1, 1, 1, 1, 1, 1, 1, 1]

  function FromContentCipher(name: string): Option<AlgorithmSuite> {
    if name == AesCbcNoKdf.ContentCipher() then Some(AesCbcNoKdf)
    else if name == AesGcmNoKdf.ContentCipher() then Some(AesGcmNoKdf)
    else if name == AesGcmCommitKey.ContentCipher() then Some(AesGcmCommitKey)
    else None
  }

  /** The lookup finds a suite exactly by the name that suite stores, and the three names are these. */
  lemma ContentCipherIdentifiesSuite(name: string, suite: AlgorithmSuite)
    ensures FromContentCipher(name) == Some(suite) <==> name == suite.ContentCipher()
    ensures FromContentCipher(name) == Some(AesCbcNoKdf) <==> name == "AES/CBC/PKCS5Padding"
    ensures FromContentCipher(name) == Some(AesGcmNoKdf) <==> name == "AES/GCM/NoPadding"
    ensures FromContentCipher(name) == Some(AesGcmCommitKey) <==> name == "115"
  {
    assert |AesCbcNoKdf.ContentCipher()| == 20;
    assert |AesGcmNoKdf.ContentCipher()| == 17;
    assert |AesGcmCommitKey.ContentCipher()| == 3;
  }

  datatype CommitmentPolicy =
    | ForbidEncryptAllowDecrypt
    | RequireEncryptAllowDecrypt
    | RequireEncryptRequireDecrypt

  datatype ConfigError = LegacySuite | PolicyRequiresCommitment | PolicyForbidsCommitment

  /** The checks made when a client configuration is created. */
  function ValidateConfig(suite: AlgorithmSuite, policy: CommitmentPolicy): Result<(), ConfigError> {
    if suite.IsLegacy() then
      Err(LegacySuite)
    else if (policy.RequireEncryptAllowDecrypt? || policy.RequireEncryptRequireDecrypt?)
            && !suite.SupportsKeyCommitment() then
      Err(PolicyRequiresCommitment)
    else if policy.ForbidEncryptAllowDecrypt? && suite.SupportsKeyCommitment() then
      Err(PolicyForbidsCommitment)
    else
      Ok(())
  }

  /** The valid pairs: committing suites go with the policies that require commitment, the plain GCM
      suite with the one that forbids it, and the legacy suite with none. */
  lemma ValidConfigsExactly(suite: AlgorithmSuite, policy: CommitmentPolicy)
    ensures ValidateConfig(suite, policy).Ok? <==>
            (suite, policy) in {(AesGcmNoKdf, ForbidEncryptAllowDecrypt),
                                (AesGcmCommitKey, RequireEncryptAllowDecrypt),
                                (AesGcmCommitKey, RequireEncryptRequireDecrypt)}
  {
    match policy
    case ForbidEncryptAllowDecrypt =>
    case RequireEncryptAllowDecrypt =>
    case RequireEncryptRequireDecrypt =>
  }

  datatype KeyError = WrongDataKeyLength | UnsupportedHash | CommitmentMismatch

  const PRK_LENGTH: nat := 64

  function HkdfExtract(prim: Primitives, salt: bytes, keyMaterial: bytes): bytes {
    seq(PRK_LENGTH, i requires 0 <= i < PRK_LENGTH => prim.hmac(salt, keyMaterial, i))
  }

  function HkdfExpand(prim: Primitives, prk: bytes, info: bytes, length: nat): (r: bytes)
    ensures |r| == length
  {
    seq(length, i requires 0 <= i < length => prim.expand(prk, info, i))
  }

  const DERIVEKEY: bytes := [0x44, 0x45, 0x52, 0x49, 0x56, 0x45, 0x4B, 0x45, 0x59]
  const COMMITKEY: bytes := [0x43, 0x4F, 0x4D, 0x4D, 0x49, 0x54, 0x4B, 0x45, 0x59]

  datatype DerivedKeys = DerivedKeys(encryptionKey: bytes, commitment: bytes)

  /** Encryption key and commitment of a data key and message id. Suites without a hash cannot derive. */
  function DeriveKeys(prim: Primitives, dataKey: bytes, messageId: bytes, suite: AlgorithmSuite): (r: Result<DerivedKeys, KeyError>)
    ensures r.Ok? ==> |r.value.encryptionKey| == DATA_KEY_LENGTH && |r.value.commitment| == COMMITMENT_LENGTH
    ensures r.Ok? <==> |dataKey| == DATA_KEY_LENGTH && suite.SupportsKeyCommitment()
  {
    if |dataKey| != DATA_KEY_LENGTH then
      Err(WrongDataKeyLength)
    else if !suite.SupportsKeyCommitment() then
      Err(UnsupportedHash)
    else
      var prk := HkdfExtract(prim, messageId, dataKey);
      Ok(DerivedKeys(HkdfExpand(prim, prk, suite.SuiteIdBytes() + DERIVEKEY, DATA_KEY_LENGTH),
                     HkdfExpand(prim, prk, suite.SuiteIdBytes() + COMMITKEY, COMMITMENT_LENGTH)))
  }

  /** The bytes of an ASCII label. */
  function Ascii(text: string): bytes
    requires forall i :: 0 <= i < |text| ==> text[i] as int < 128
  {
    seq(|text|, i requires 0 <= i < |text| => text[i] as int as bv8)
  }

  /** Byte by byte: both keys are expanded from the HMAC of the data key under the message id, with
      the suite's id and a label of their own. */
  lemma DerivedBytes(prim: Primitives, dataKey: bytes, messageId: bytes, prk: bytes)
    requires |dataKey| == 32
    requires |prk| == 64 && forall i :: 0 <= i < 64 ==> prk[i] == prim.hmac(messageId, dataKey, i)
    ensures var r := DeriveKeys(prim, dataKey, messageId, AesGcmCommitKey);
            && r.Ok?
            && |r.value.encryptionKey| == 32 && |r.value.commitment| == 28
            && (forall i :: 0 <= i < 32 ==>
                  r.value.encryptionKey[i] == prim.expand(prk, [0x00, 0x73] + Ascii("DERIVEKEY"), i))
            && (forall i :: 0 <= i < 28 ==>
                  r.value.commitment[i] == prim.expand(prk, [0x00, 0x73] + Ascii("COMMITKEY"), i))
  {
    assert prk == HkdfExtract(prim, messageId, dataKey);
    DeriveLabel();
    CommitLabel();
  }

  lemma DeriveLabel()
    ensures DERIVEKEY == Ascii("DERIVEKEY")
  {
  }

  lemma CommitLabel()
    ensures COMMITKEY == Ascii("COMMITKEY")
  {
  }
}
