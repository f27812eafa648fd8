/** The decision whether and how to decrypt an object: a chain of checks over its metadata. */
module GetPipeline {
  import opened Wrappers
  import opened AesGcm
  import opened AesCbc
  import opened Decryptors
  import opened Materials
  import opened Metadata
  import opened Kms
  import opened Stream

  datatype Format = V1 | V2 | V3

  datatype GetError =
    | BadMetadata(cause: MetadataError)
    | InstructionFileDisabled
    | InstructionFileUnavailable
    | InstructionFileNotJson
    | InstructionFileNotAnObject
    | InstructionFileInvalidKeys
    | InstructionFileEmpty
    | InstructionFileTampered            // holds x-amz-c, x-amz-d or x-amz-i
    | ContentMetadataInBothPlaces
    | UnknownContentCipher
    | UnknownFormat
    | KeysOfSeveralFormats
    | V2WithV3ContentKeys
    | UnknownV3Wrapping
    | KeyringRefused(reason: KeyringError)
    | LegacyModesDisabled
    | PolicyRequiresCommittingSuite
    | CipherRejected                     // the library refuses the key or the IV
    | DerivationFailed(why: KeyError)

  /** What a get runs against: primitives, codecs, and what KMS knows. */
  datatype Env = Env(prim: Primitives, codec: Codec, kms: KmsTable)

  datatype GetConfig = GetConfig(
    policy: CommitmentPolicy, legacyModes: bool, legacyWrapping: bool,
    disableInstructionFile: bool, delayedAuthentication: bool)

  /** The object S3 returned for the instruction key. */
  datatype InstructionObject = InstructionObject(metadata: map<Header, string>, body: string)

  /** How an accepted object is decrypted. `streaming` says whether plaintext may be released
      before the whole body was verified. */
  datatype Accepted = Accepted(format: Format, suite: AlgorithmSuite, metadata: ObjectMetadata,
                               dataKey: bytes, spec: CipherSpec, streaming: bool)

  function Name(key: Header): string {
    match key
    case DataKeyV1 => "x-amz-key"
    case DataKeyV2 => "x-amz-key-v2"
    case WrapAlg => "x-amz-wrap-alg"
    case MatDesc => "x-amz-matdesc"
    case Iv => "x-amz-iv"
    case CekAlg => "x-amz-cek-alg"
    case TagLen => "x-amz-tag-len"
    case InstructionMarker => "x-amz-crypto-instr-file"
    case CipherV3 => "x-amz-c"
    case DataKeyV3 => "x-amz-3"
    case MatDescV3 => "x-amz-m"
    case ContextV3 => "x-amz-t"
    case WrapAlgV3 => "x-amz-w"
    case CommitmentV3 => "x-amz-d"
    case MessageIdV3 => "x-amz-i"
  }

  /** An instruction file is a JSON object whose keys are all header names of the client. */
  function ParseInstructionFile(codec: Codec, body: string): Result<Headers, GetError> {
    match codec.loads(body)
    case None => Err(InstructionFileNotJson)
    case Some(Object(entries)) =>
      if entries.Keys <= (set key: Header | true :: Name(key)) then
        Ok(map key: Header | Name(key) in entries :: entries[Name(key)])
      else
        Err(InstructionFileInvalidKeys)
    case Some(_) => Err(InstructionFileNotAnObject)
  }

  /** The instruction object's own metadata, updated with what its body holds. */
  function FetchInstructionFile(codec: Codec, instruction: Option<InstructionObject>): Result<Headers, GetError> {
    match instruction
    case None => Err(InstructionFileUnavailable)
    case Some(file) =>
      var parsed :- ParseInstructionFile(codec, file.body);
      var merged := TextHeaders(file.metadata) + parsed;
      if merged == map[] then Err(InstructionFileEmpty) else Ok(merged)
  }

  function Read(codec: Codec, h: Headers): Result<ObjectMetadata, GetError> {
    match FromDict(codec, h)
    case Ok(m) => Ok(m)
    case Err(e) => Err(BadMetadata(e))
  }

  const V3_CONTENT_KEYS: set<Header> := {CipherV3, CommitmentV3, MessageIdV3}

  /** The metadata to decrypt by: the object's own, or merged over its instruction file's. */
  function ResolveMetadata(codec: Codec, cfg: GetConfig, headers: Headers, instruction: Option<InstructionObject>)
    : Result<ObjectMetadata, GetError>
  {
    var own :- Read(codec, headers);
    if !own.ShouldUseInstructionFile() then
      Ok(own)
    else
      var _ :- Need(!cfg.disableInstructionFile, InstructionFileDisabled);
      var fetched :- FetchInstructionFile(codec, instruction);
      var _ :- Need(fetched.Keys !! V3_CONTENT_KEYS, InstructionFileTampered);
      var merged :- Read(codec, fetched + headers);
      var _ :- Need((merged.IsV1() || merged.IsV2()) ==> own.cekAlg == Null && own.iv == Null && own.wrapAlg == Null,
                    ContentMetadataInBothPlaces);
      Ok(merged)
  }

  function SuiteOf(cipher: Value): Result<AlgorithmSuite, GetError> {
    if cipher.Text? && FromContentCipher(cipher.text).Some? then
      Ok(FromContentCipher(cipher.text).value)
    else
      Err(UnknownContentCipher)
  }

  function DetermineSuite(m: ObjectMetadata): Result<AlgorithmSuite, GetError> {
    if m.IsV1() then Ok(AesCbcNoKdf)
    else if m.IsV2() then SuiteOf(m.cekAlg)
    else if m.IsV3() then SuiteOf(m.cipherV3)
    else Err(UnknownFormat)
  }

  function FormatOf(m: ObjectMetadata): Result<Format, GetError> {
    if m.IsV1() then Ok(V1) else if m.IsV2() then Ok(V2) else if m.IsV3() then Ok(V3) else Err(UnknownFormat)
  }

  function Base64(codec: Codec, v: Value): Result<bytes, GetError> {
    match codec.Base64Value(v)
    case Ok(b) => Ok(b)
    case Err(e) => Err(BadMetadata(e))
  }

  function Loads(codec: Codec, v: Value): Result<Value, GetError> {
    match codec.LoadsValue(v)
    case Ok(w) => Ok(w)
    case Err(e) => Err(BadMetadata(e))
  }

  function Unwrap(env: Env, cfg: GetConfig, edk: EncryptedDataKey, stored: Value, request: Dict, suite: AlgorithmSuite)
    : Result<bytes, GetError>
  {
    match UnwrapDataKey(env.kms, cfg.legacyWrapping, edk, stored, request, Some(suite))
    case Ok(key) => Ok(key)
    case Err(e) => Err(KeyringRefused(e))
  }

  /** `x-amz-w`, or its default when absent or empty, to the wrapping algorithm it stands for. */
  function V3Wrapping(v: Value): Result<string, GetError> {
    var raw := if v.Truthy() then v else Text("12");
    if raw == Text("02") then Ok("AES/GCM")
    else if raw == Text("12") then Ok(KMS_CONTEXT)
    else if raw == Text("22") then Ok("RSA-OAEP-SHA1")
    else Err(UnknownV3Wrapping)
  }

  /** A V3 context is a dictionary or its JSON text; anything else counts as empty. */
  function V3Context(codec: Codec, v: Value): Result<Value, GetError> {
    match v
    case Object(_) => Ok(v)
    case Text(_) => Loads(codec, v)
    case _ => Ok(Object(map[]))
  }

  /** Decryption materials: the IV, when the format has one, and the data key. */
  datatype KeyAndIv = KeyAndIv(iv: Option<bytes>, key: bytes)

  function DataKeyOf(env: Env, cfg: GetConfig, m: ObjectMetadata, format: Format, request: Dict, suite: AlgorithmSuite)
    : Result<KeyAndIv, GetError>
  {
    if format.V3? then
      var blob :- Base64(env.codec, m.dataKeyV3);
      var wrapping :- V3Wrapping(m.wrapAlgV3);
      var stored :- V3Context(env.codec, if wrapping == KMS_CONTEXT then m.contextV3 else m.matDescV3);
      var key :- Unwrap(env, cfg, EncryptedDataKey(Text(wrapping), blob), stored, request, suite);
      Ok(KeyAndIv(None, key))
    else
      var iv :- Base64(env.codec, m.iv);
      var blob :- Base64(env.codec, if format.V1? then m.dataKeyV1 else m.dataKeyV2);
      var stored := if m.context.Truthy() then m.context else Object(map[]);
      var key :- Unwrap(env, cfg, EncryptedDataKey(m.wrapAlg, blob), stored, request, suite);
      Ok(KeyAndIv(Some(iv), key))
  }

  predicate IsAesKey(key: bytes) {
    |key| == 16 || |key| == 24 || |key| == 32
  }

  /** The cipher of the suite; the library refuses keys and IVs of the wrong size, and no IV. */
  function CipherOf(env: Env, m: ObjectMetadata, suite: AlgorithmSuite, k: KeyAndIv): Result<CipherSpec, GetError> {
    match suite
    case AesCbcNoKdf =>
      if IsAesKey(k.key) && k.iv.Some? && |k.iv.value| == BLOCK then
        Ok(CbcSpec(Cbc(env.prim, k.key, k.iv.value)))
      else Err(CipherRejected)
    case AesGcmNoKdf =>
      if IsAesKey(k.key) && k.iv.Some? && 8 <= |k.iv.value| <= 128 then
        Ok(GcmSpec(Gcm(env.prim, k.key, k.iv.value, [])))
      else Err(CipherRejected)
    case AesGcmCommitKey => CommittingCipher(env, m, k.key)
  }

  /** Verify the stored commitment, then decrypt under the key derived along with it. */
  function CommittingCipher(env: Env, m: ObjectMetadata, dataKey: bytes): Result<CipherSpec, GetError> {
    var messageId :- Base64(env.codec, m.messageIdV3);
    var commitment :- Base64(env.codec, m.commitmentV3);
    VerifyAndDerive(env.prim, dataKey, messageId, commitment)
  }

  function VerifyAndDerive(prim: Primitives, dataKey: bytes, messageId: bytes, commitment: bytes): Result<CipherSpec, GetError> {
    match DeriveKeys(prim, dataKey, messageId, AesGcmCommitKey)
    case Err(e) => Err(DerivationFailed(e))
    case Ok(derived) =>
      if commitment == derived.commitment then
        Ok(GcmSpec(Gcm(prim, derived.encryptionKey, KC_GCM_IV, AesGcmCommitKey.SuiteIdBytes())))
      else Err(DerivationFailed(CommitmentMismatch))
  }

  /** What the object's metadata must satisfy on its own. */
  function CheckFormat(m: ObjectMetadata): Result<(), GetError> {
    if m.HasExclusiveKeyCollision() then
      Err(KeysOfSeveralFormats)
    else if m.IsV2() && (m.cipherV3 != Null || m.commitmentV3 != Null || m.messageIdV3 != Null) then
      Err(V2WithV3ContentKeys)
    else
      Ok(())
  }

  /** What the client's configuration must allow. */
  function CheckPolicy(cfg: GetConfig, suite: AlgorithmSuite): Result<(), GetError> {
    if suite.IsLegacy() && !cfg.legacyModes then
      Err(LegacyModesDisabled)
    else if cfg.policy.RequireEncryptRequireDecrypt? && !suite.SupportsKeyCommitment() then
      Err(PolicyRequiresCommittingSuite)
    else
      Ok(())
  }

  /** The decision on resolved metadata. */
  function DecideOn(env: Env, cfg: GetConfig, m: ObjectMetadata, request: Dict): Result<Accepted, GetError> {
    var suite :- DetermineSuite(m);
    var _ :- CheckFormat(m);
    var format :- FormatOf(m);
    var k :- DataKeyOf(env, cfg, m, format, request, suite);
    var _ :- CheckPolicy(cfg, suite);
    var spec :- CipherOf(env, m, suite, k);
    Ok(Accepted(format, suite, m, k.key, spec, suite.IsLegacy() || cfg.delayedAuthentication))
  }

  /** The whole decision, in the order the source makes it. */
  function Decide(env: Env, cfg: GetConfig, headers: Headers, instruction: Option<InstructionObject>, request: Dict)
    : Result<Accepted, GetError>
  {
    var m :- ResolveMetadata(env.codec, cfg, headers, instruction);
    DecideOn(env, cfg, m, request)
  }

  /** What the caller gets as the body. */
  datatype Body = Buffered(plaintext: bytes) | Streaming(stream: DecryptingStream)

  /** Build the decryptor of an accepted object; stream it, or decrypt it at once. Without delayed
      authentication no GCM plaintext leaves before its tag was verified. */
  method OpenBody(a: Accepted, body: Reader, contentLength: nat) returns (r: Result<Body, Failure>)
    requires body.Valid() && body.position == 0
    modifies body
    ensures !a.streaming ==>
              match a.spec.Whole(body.data) {
                case Ok(plaintext) => r == Ok(Buffered(plaintext))
                case Err(e) => r == Err(e)
              }
    ensures a.streaming ==>
              && r.Ok? && r.value.Streaming? && fresh(r.value.stream)
              && var s := r.value.stream;
              && s.Valid() && s.Snapshot() == START && fresh(s.decryptor.Object())
              && s.spec == a.spec && s.body == body && s.contentLength == contentLength
  {
    var decryptor: Decryptor;
    match a.spec {
      case GcmSpec(gcm) =>
        var d := new AesGcmDecryptor(gcm, contentLength);
        decryptor := GcmDecryptor(d);
      case CbcSpec(cbc) =>
        var d := new AesCbcDecryptor(cbc, contentLength);
        decryptor := CbcDecryptor(d);
    }
    if a.streaming {
      var stream := new DecryptingStream(body, decryptor, contentLength);
      return Ok(Streaming(stream));
    }
    var plaintext := OneShotDecrypt(body, decryptor);
    return if plaintext.Ok? then Ok(Buffered(plaintext.value)) else Err(plaintext.error);
  }

  // ---- What every accepted object satisfies ----

  /** Every check of the decision passed. */
  lemma AcceptedPassedChecks(env: Env, cfg: GetConfig, m: ObjectMetadata, request: Dict) returns (k: KeyAndIv)
    requires DecideOn(env, cfg, m, request).Ok?
    ensures var a := DecideOn(env, cfg, m, request).value;
            && a.metadata == m && a.dataKey == k.key
            && DetermineSuite(m) == Ok(a.suite) && FormatOf(m) == Ok(a.format)
            && CheckFormat(m) == Ok(()) && CheckPolicy(cfg, a.suite) == Ok(())
            && DataKeyOf(env, cfg, m, a.format, request, a.suite) == Ok(k)
            && CipherOf(env, m, a.suite, k) == Ok(a.spec)
            && a.streaming == (a.suite.IsLegacy() || cfg.delayedAuthentication)
  {
    var suite, format := DetermineSuite(m).value, FormatOf(m).value;
    k := DataKeyOf(env, cfg, m, format, request, suite).value;
  }

  /** V3 materials carry no IV, V1 and V2 materials do. */
  lemma IvByFormat(env: Env, cfg: GetConfig, m: ObjectMetadata, format: Format, request: Dict, suite: AlgorithmSuite)
    requires DataKeyOf(env, cfg, m, format, request, suite).Ok?
    ensures DataKeyOf(env, cfg, m, format, request, suite).value.iv.Some? <==> !format.V3?
  {
  }

  /** The committing cipher needs a message id, the others an IV. */
  lemma CipherNeeds(env: Env, m: ObjectMetadata, suite: AlgorithmSuite, k: KeyAndIv)
    requires CipherOf(env, m, suite, k).Ok?
    ensures suite.AesGcmCommitKey? ==> m.messageIdV3 != Null
    ensures !suite.AesGcmCommitKey? ==> k.iv.Some?
    ensures CipherOf(env, m, suite, k).value.CbcSpec? <==> suite.AesCbcNoKdf?
  {
  }

  /** Format and suite agree: V1 means CBC, V2 means CBC or plain GCM, and V3 holds exactly when
      the suite is the committing one; the formats exclude each other. */
  lemma AcceptedFormatMatchesSuite(env: Env, cfg: GetConfig, m: ObjectMetadata, request: Dict)
    requires DecideOn(env, cfg, m, request).Ok?
    ensures var a := DecideOn(env, cfg, m, request).value;
            && (a.format.V1? ==> a.suite.AesCbcNoKdf?)
            && (a.format.V2? ==> a.suite.AesCbcNoKdf? || a.suite.AesGcmNoKdf?)
            && (a.format.V3? <==> a.suite.AesGcmCommitKey?)
            && (a.format.V1? <==> m.IsV1()) && (a.format.V2? <==> m.IsV2()) && (a.format.V3? <==> m.IsV3())
            && !m.HasExclusiveKeyCollision()
            && (a.format.V2? ==> m.cipherV3 == Null && m.commitmentV3 == Null && m.messageIdV3 == Null)
  {
    var a := DecideOn(env, cfg, m, request).value;
    var k := AcceptedPassedChecks(env, cfg, m, request);
    FormatsExclude(m);
    IvByFormat(env, cfg, m, a.format, request, a.suite);
    CipherNeeds(env, m, a.suite, k);
  }

  /** The commitment verified: the stored value is the one this data key and message id derive,
      and the object is decrypted under the key derived along with it. */
  ghost predicate CommitmentVerified(env: Env, m: ObjectMetadata, dataKey: bytes, spec: CipherSpec) {
    exists messageId ::
      && env.codec.Base64Value(m.messageIdV3) == Ok(messageId)
      && var derived := DeriveKeys(env.prim, dataKey, messageId, AesGcmCommitKey);
      && derived.Ok?
      && env.codec.Base64Value(m.commitmentV3) == Ok(derived.value.commitment)
      && spec == GcmSpec(Gcm(env.prim, derived.value.encryptionKey, KC_GCM_IV, AesGcmCommitKey.SuiteIdBytes()))
  }

  lemma CommittingCipherVerifies(env: Env, m: ObjectMetadata, dataKey: bytes)
    requires CommittingCipher(env, m, dataKey).Ok?
    ensures CommitmentVerified(env, m, dataKey, CommittingCipher(env, m, dataKey).value)
  {
    var messageId := env.codec.Base64Value(m.messageIdV3).value;
    assert env.codec.Base64Value(m.messageIdV3) == Ok(messageId);
  }

  /** Committing objects are decrypted only under a verified commitment; the strictest policy
      accepts nothing else; and CBC needs the legacy option. Only CBC and delayed authentication
      release plaintext before the whole body is verified. */
  lemma AcceptedObeysPolicy(env: Env, cfg: GetConfig, m: ObjectMetadata, request: Dict)
    requires DecideOn(env, cfg, m, request).Ok?
    ensures var a := DecideOn(env, cfg, m, request).value;
            && (a.format.V3? ==> CommitmentVerified(env, m, a.dataKey, a.spec))
            && (cfg.policy.RequireEncryptRequireDecrypt? ==> a.format.V3?)
            && (a.spec.CbcSpec? ==> cfg.legacyModes && !cfg.policy.RequireEncryptRequireDecrypt?)
            && (a.streaming <==> a.spec.CbcSpec? || cfg.delayedAuthentication)
  {
    var a := DecideOn(env, cfg, m, request).value;
    var k := AcceptedPassedChecks(env, cfg, m, request);
    AcceptedFormatMatchesSuite(env, cfg, m, request);
    CipherNeeds(env, m, a.suite, k);
    if a.format.V3? {
      CommittingCipherVerifies(env, m, k.key);
    }
  }

  /** Which fields an accepted object has, and which it lacks. */
  lemma AcceptedFields(env: Env, cfg: GetConfig, m: ObjectMetadata, request: Dict)
    requires DecideOn(env, cfg, m, request).Ok?
    ensures match DecideOn(env, cfg, m, request).value.format
            case V1 =>
              && m.dataKeyV1.Text? && m.iv.Text? && m.wrapAlg.Text? && m.context != Null
              && m.dataKeyV2 == Null && m.dataKeyV3 == Null
            case V2 =>
              && m.dataKeyV2.Text? && m.iv.Text? && m.wrapAlg.Text?
              && (m.cekAlg == Text("AES/GCM/NoPadding") || m.cekAlg == Text("AES/CBC/PKCS5Padding"))
              && m.dataKeyV1 == Null && m.dataKeyV3 == Null
              && m.cipherV3 == Null && m.commitmentV3 == Null && m.messageIdV3 == Null
            case V3 =>
              && m.dataKeyV3.Text? && m.cipherV3 == Text("115") && m.wrapAlgV3 != Null
              && m.commitmentV3.Text? && m.messageIdV3.Text?
              && m.dataKeyV1 == Null && m.dataKeyV2 == Null
  {
    var a := DecideOn(env, cfg, m, request).value;
    var k := AcceptedPassedChecks(env, cfg, m, request);
    AcceptedFormatMatchesSuite(env, cfg, m, request);
    var info, blob, stored := KeyringWasAsked(env, cfg, m, a.format, request, a.suite);
    if a.format.V3? {
      CommittingCipherVerifies(env, m, k.key);
      ContentCipherIdentifiesSuite(m.cipherV3.text, AesGcmCommitKey);
    } else {
      IvIsStored(env, cfg, m, a.format, request, a.suite);
      if a.format.V2? {
        ContentCipherIdentifiesSuite(m.cekAlg.text, a.suite);
      }
    }
  }

  lemma IvIsStored(env: Env, cfg: GetConfig, m: ObjectMetadata, format: Format, request: Dict, suite: AlgorithmSuite)
    requires DataKeyOf(env, cfg, m, format, request, suite).Ok? && !format.V3?
    ensures var iv := DataKeyOf(env, cfg, m, format, request, suite).value.iv;
            iv.Some? && env.codec.Base64Value(m.iv) == Ok(iv.value)
  {
  }

  /** V1 and V2 objects are decrypted with the stored IV and the data key itself, both of a size the
      cipher takes: CBC with 16 bytes of IV, GCM with 8 to 128 and no AAD. */
  lemma AcceptedCipher(env: Env, cfg: GetConfig, m: ObjectMetadata, request: Dict) returns (iv: bytes)
    requires DecideOn(env, cfg, m, request).Ok? && !DecideOn(env, cfg, m, request).value.format.V3?
    ensures env.codec.Base64Value(m.iv) == Ok(iv)
    ensures var a := DecideOn(env, cfg, m, request).value;
            && |a.dataKey| in {16, 24, 32}
            && (a.suite.AesCbcNoKdf? ==> |iv| == 16 && a.spec == CbcSpec(Cbc(env.prim, a.dataKey, iv)))
            && (!a.suite.AesCbcNoKdf? ==> 8 <= |iv| <= 128 && a.spec == GcmSpec(Gcm(env.prim, a.dataKey, iv, [])))
  {
    var a := DecideOn(env, cfg, m, request).value;
    var k := AcceptedPassedChecks(env, cfg, m, request);
    AcceptedFormatMatchesSuite(env, cfg, m, request);
    IvIsStored(env, cfg, m, a.format, request, a.suite);
    iv := k.iv.value;
  }

  /** The same configuration with every suite let through. */
  function Permissive(cfg: GetConfig): GetConfig {
    cfg.(legacyModes := true, policy := ForbidEncryptAllowDecrypt)
  }

  /** Legacy option and policy only filter: what is accepted at all is accepted in the same way, or
      rejected for being CBC without the legacy option or for having no commitment under the
      strictest policy. */
  lemma PolicyFilters(env: Env, cfg: GetConfig, m: ObjectMetadata, request: Dict)
    ensures var all, d := DecideOn(env, Permissive(cfg), m, request), DecideOn(env, cfg, m, request);
            && (d.Ok? ==> all == d)
            && (all.Ok? ==>
                  d == if all.value.spec.CbcSpec? && !cfg.legacyModes then Err(LegacyModesDisabled)
                       else if !all.value.format.V3? && cfg.policy.RequireEncryptRequireDecrypt? then Err(PolicyRequiresCommittingSuite)
                       else all)
  {
    var all := DecideOn(env, Permissive(cfg), m, request);
    if all.Ok? {
      AcceptedFormatMatchesSuite(env, Permissive(cfg), m, request);
      var k := AcceptedPassedChecks(env, Permissive(cfg), m, request);
      CipherNeeds(env, m, all.value.suite, k);
      SameDataKey(env, cfg, m, all.value.format, request, all.value.suite);
    } else if DecideOn(env, cfg, m, request).Ok? {
      var k := AcceptedPassedChecks(env, cfg, m, request);
      var a := DecideOn(env, cfg, m, request).value;
      SameDataKey(env, cfg, m, a.format, request, a.suite);
    }
  }

  lemma SameDataKey(env: Env, cfg: GetConfig, m: ObjectMetadata, format: Format, request: Dict, suite: AlgorithmSuite)
    ensures DataKeyOf(env, Permissive(cfg), m, format, request, suite) == DataKeyOf(env, cfg, m, format, request, suite)
  {
  }

  /** An accepted object names kms+context, or for V1 and V2 the legacy wrapping when it is enabled;
      V3 may leave its one accepted wrapping empty. */
  lemma AcceptedWrapping(env: Env, cfg: GetConfig, m: ObjectMetadata, request: Dict)
    requires DecideOn(env, cfg, m, request).Ok?
    ensures if DecideOn(env, cfg, m, request).value.format.V3? then
              m.wrapAlgV3 == Text("12") || !m.wrapAlgV3.Truthy()
            else
              m.wrapAlg == Text("kms+context") || (m.wrapAlg == Text("kms") && cfg.legacyWrapping && request == map[])
  {
    var a := DecideOn(env, cfg, m, request).value;
    var k := AcceptedPassedChecks(env, cfg, m, request);
    var info, blob, stored := KeyringWasAsked(env, cfg, m, a.format, request, a.suite);
    assert "AES/GCM" != KMS_CONTEXT && "AES/GCM" != KMS_V1 && "RSA-OAEP-SHA1" != KMS_CONTEXT && "RSA-OAEP-SHA1" != KMS_V1;
  }

  /** The stored context an object of this format is unwrapped with: its V1 or V2 description, or
      the V3 field that goes with its wrapping algorithm; empty where there is none. */
  ghost predicate IsStoredContext(codec: Codec, m: ObjectMetadata, format: Format, info: Value, stored: Value) {
    if format.V3? then
      var field := if info == Text(KMS_CONTEXT) then m.contextV3 else m.matDescV3;
      match field
      case Object(_) => stored == field
      case Text(text) => codec.loads(text) == Some(stored)
      case _ => stored == Object(map[])
    else
      stored == if m.context.Truthy() then m.context else Object(map[])
  }

  /** The wrapped key, wrapping algorithm and stored context the keyring is given. */
  ghost predicate AsksKeyring(env: Env, cfg: GetConfig, m: ObjectMetadata, format: Format, request: Dict, suite: AlgorithmSuite,
                              info: Value, blob: bytes, stored: Value, key: bytes)
  {
    && UnwrapDataKey(env.kms, cfg.legacyWrapping, EncryptedDataKey(info, blob), stored, request, Some(suite)) == Ok(key)
    && env.codec.Base64Value(if format.V1? then m.dataKeyV1 else if format.V2? then m.dataKeyV2 else m.dataKeyV3) == Ok(blob)
    && (if format.V3? then V3Wrapping(m.wrapAlgV3).Ok? && info == Text(V3Wrapping(m.wrapAlgV3).value) else info == m.wrapAlg)
    && IsStoredContext(env.codec, m, format, info, stored)
  }

  lemma KeyringWasAsked(env: Env, cfg: GetConfig, m: ObjectMetadata, format: Format, request: Dict, suite: AlgorithmSuite)
    returns (info: Value, blob: bytes, stored: Value)
    requires DataKeyOf(env, cfg, m, format, request, suite).Ok?
    ensures AsksKeyring(env, cfg, m, format, request, suite, info, blob, stored,
                        DataKeyOf(env, cfg, m, format, request, suite).value.key)
  {
    if format.V3? {
      blob := Base64(env.codec, m.dataKeyV3).value;
      var wrapping := V3Wrapping(m.wrapAlgV3).value;
      info := Text(wrapping);
      stored := V3Context(env.codec, if wrapping == KMS_CONTEXT then m.contextV3 else m.matDescV3).value;
    } else {
      blob := Base64(env.codec, if format.V1? then m.dataKeyV1 else m.dataKeyV2).value;
      info := m.wrapAlg;
      stored := if m.context.Truthy() then m.context else Object(map[]);
    }
  }

  /** The wrapping algorithm an accepted object was unwrapped with. */
  function WrappingOf(m: ObjectMetadata, format: Format): Value {
    if format.V3? then (if V3Wrapping(m.wrapAlgV3).Ok? then Text(V3Wrapping(m.wrapAlgV3).value) else Null) else m.wrapAlg
  }

  /** Suite binding, for arbitrary metadata: an object accepted under kms+context whose wrapped
      key was generated for some suite and context is decrypted with that suite, under that data
      key, for a request equal to that context without the reserved keys. */
  lemma AcceptedSuiteIsBound(env: Env, cfg: GetConfig, m: ObjectMetadata, request: Dict,
                             blob: bytes, suite: AlgorithmSuite, context: Dict)
    requires DecideOn(env, cfg, m, request).Ok?
    requires WrappingOf(m, DecideOn(env, cfg, m, request).value.format) == Text(KMS_CONTEXT)
    requires var f := DecideOn(env, cfg, m, request).value.format;
             env.codec.Base64Value(if f.V1? then m.dataKeyV1 else if f.V2? then m.dataKeyV2 else m.dataKeyV3) == Ok(blob)
    requires blob in env.kms && env.kms[blob].context == BoundContext(context, suite)
    ensures var a := DecideOn(env, cfg, m, request).value;
            a.suite == suite && a.dataKey == env.kms[blob].key && request == WithoutReserved(context)
  {
    var a := DecideOn(env, cfg, m, request).value;
    var k := AcceptedPassedChecks(env, cfg, m, request);
    var info, b, stored := KeyringWasAsked(env, cfg, m, a.format, request, a.suite);
    UnwrapsExactlyAsBound(env.kms, cfg.legacyWrapping, blob, context, suite, stored, request, a.suite);
  }

  /** Where merged metadata comes from, on every object accepted through its instruction file:
      V3 takes cipher, commitment and message id from the object; V1 and V2 take cipher, IV and
      wrapping algorithm from the instruction file, the object having none. */
  lemma InstructionFileProvenance(env: Env, cfg: GetConfig, headers: Headers, instruction: Option<InstructionObject>,
                                  request: Dict)
    requires Decide(env, cfg, headers, instruction, request).Ok?
    requires FromDict(env.codec, headers).Ok? && FromDict(env.codec, headers).value.ShouldUseInstructionFile()
    requires forall key :: key in headers ==> headers[key] != Null
    ensures !cfg.disableInstructionFile
    ensures FetchInstructionFile(env.codec, instruction).Ok?
    ensures var a := Decide(env, cfg, headers, instruction, request).value;
            var fetched := FetchInstructionFile(env.codec, instruction).value;
            && fetched.Keys !! V3_CONTENT_KEYS
            && (a.format.V3? ==>
                  && a.metadata.cipherV3 == Get(headers, CipherV3)
                  && a.metadata.commitmentV3 == Get(headers, CommitmentV3)
                  && a.metadata.messageIdV3 == Get(headers, MessageIdV3))
            && (!a.format.V3? ==>
                  && a.metadata.cekAlg == Get(fetched, CekAlg) && Get(headers, CekAlg) == Null
                  && a.metadata.iv == Get(fetched, Iv) && Get(headers, Iv) == Null
                  && a.metadata.wrapAlg == Get(fetched, WrapAlg) && Get(headers, WrapAlg) == Null)
            && (a.format.V2? ==> forall key :: key in V3_CONTENT_KEYS ==> Get(headers, key) == Null)
  {
    var m := ResolveMetadata(env.codec, cfg, headers, instruction).value;
    AcceptedFormatMatchesSuite(env, cfg, m, request);
    var k := AcceptedPassedChecks(env, cfg, m, request);
    MergedFields(env.codec, cfg, headers, instruction);
  }

  lemma MergedFields(codec: Codec, cfg: GetConfig, headers: Headers, instruction: Option<InstructionObject>)
    requires ResolveMetadata(codec, cfg, headers, instruction).Ok?
    requires FromDict(codec, headers).Ok? && FromDict(codec, headers).value.ShouldUseInstructionFile()
    requires forall key :: key in headers ==> headers[key] != Null
    ensures !cfg.disableInstructionFile && FetchInstructionFile(codec, instruction).Ok?
    ensures var m := ResolveMetadata(codec, cfg, headers, instruction).value;
            var fetched := FetchInstructionFile(codec, instruction).value;
            && fetched.Keys !! V3_CONTENT_KEYS
            && m.cipherV3 == Get(headers, CipherV3) && m.commitmentV3 == Get(headers, CommitmentV3)
            && m.messageIdV3 == Get(headers, MessageIdV3)
            && (m.IsV1() || m.IsV2() ==>
                  && Get(headers, CekAlg) == Null && Get(headers, Iv) == Null && Get(headers, WrapAlg) == Null
                  && m.cekAlg == Get(fetched, CekAlg) && m.iv == Get(fetched, Iv) && m.wrapAlg == Get(fetched, WrapAlg))
  {
  }

  lemma ContentKeysStay(codec: Codec, cfg: GetConfig, headers: Headers, instruction: Option<InstructionObject>, key: Header)
    requires ResolveMetadata(codec, cfg, headers, instruction).Ok?
    requires key in V3_CONTENT_KEYS && Get(headers, key) != Null
    ensures var m := ResolveMetadata(codec, cfg, headers, instruction).value;
            m.cipherV3 != Null || m.commitmentV3 != Null || m.messageIdV3 != Null
  {
    var m := ResolveMetadata(codec, cfg, headers, instruction).value;
    var own := Read(codec, headers).value;
    if own.ShouldUseInstructionFile() {
      var fetched := FetchInstructionFile(codec, instruction).value;
      assert Get(fetched + headers, key) == Get(headers, key);
      assert Read(codec, fetched + headers) == Ok(m);
    }
  }

  /** An accepted object with a V3 content key in its own headers is V3, or it is V1, which the
      check against such keys leaves out: then legacy modes are on and the policy is not the
      strictest. */
  lemma ContentKeysMeanV3OrLegacyV1(env: Env, cfg: GetConfig, headers: Headers, instruction: Option<InstructionObject>,
                                    request: Dict, key: Header)
    requires Decide(env, cfg, headers, instruction, request).Ok?
    requires key in V3_CONTENT_KEYS && Get(headers, key) != Null
    ensures var a := Decide(env, cfg, headers, instruction, request).value;
            a.format.V3? || (a.format.V1? && cfg.legacyModes && !cfg.policy.RequireEncryptRequireDecrypt?)
  {
    var m := ResolveMetadata(env.codec, cfg, headers, instruction).value;
    ContentKeysStay(env.codec, cfg, headers, instruction, key);
    AcceptedFormatMatchesSuite(env, cfg, m, request);
    var k := AcceptedPassedChecks(env, cfg, m, request);
    CipherNeeds(env, m, DecideOn(env, cfg, m, request).value.suite, k);
    AcceptedObeysPolicy(env, cfg, m, request);
  }

  /** V1 headers of a blob, with any text under x-amz-c beside them. */
  function V1Headers(codec: Codec, blob: bytes, iv: bytes, wrapping: string, stored: Dict, cipher: string): Headers {
    map[DataKeyV1 := Text(codec.b64encode(blob)), Iv := Text(codec.b64encode(iv)),
        MatDesc := Text(codec.dumps(Object(stored))), WrapAlg := Text(wrapping), CipherV3 := Text(cipher)]
  }

  /** The second case exists for every data key the keyring releases for CBC, under either wrapping. */
  lemma V1WithContentKeyIsAccepted(env: Env, cfg: GetConfig, blob: bytes, iv: bytes, wrapping: string,
                                   stored: Dict, request: Dict, cipher: string)
    requires env.codec.Lawful() && |iv| == BLOCK
    requires cfg.legacyModes && !cfg.policy.RequireEncryptRequireDecrypt?
    requires ReleasedForCbc(env, cfg, blob, wrapping, stored, request)
    ensures var d := Decide(env, cfg, V1Headers(env.codec, blob, iv, wrapping, stored, cipher), None, request);
            d.Ok? && d.value.format.V1?
  {
    var headers := V1Headers(env.codec, blob, iv, wrapping, stored, cipher);
    var m := FromDict(env.codec, headers).value;
    assert m.IsV1() && !m.ShouldUseInstructionFile() && m.context == Object(stored);
    AcceptsV1(env, cfg, m, request, blob, iv, wrapping, stored);
  }

  lemma AcceptsV1(env: Env, cfg: GetConfig, m: ObjectMetadata, request: Dict, blob: bytes, iv: bytes,
                  wrapping: string, stored: Dict)
    requires env.codec.Lawful() && |iv| == BLOCK && cfg.legacyModes && !cfg.policy.RequireEncryptRequireDecrypt?
    requires m.dataKeyV1 == Text(env.codec.b64encode(blob)) && m.iv == Text(env.codec.b64encode(iv))
    requires m.wrapAlg == Text(wrapping) && m.context == Object(stored) && m.dataKeyV2 == Null && m.dataKeyV3 == Null
    requires ReleasedForCbc(env, cfg, blob, wrapping, stored, request)
    ensures DecideOn(env, cfg, m, request).Ok? && DecideOn(env, cfg, m, request).value.format.V1?
  {
    var key := UnwrapDataKey(env.kms, cfg.legacyWrapping, EncryptedDataKey(Text(wrapping), blob), Object(stored), request,
                             Some(AesCbcNoKdf)).value;
    assert DataKeyOf(env, cfg, m, V1, request, AesCbcNoKdf) == Ok(KeyAndIv(Some(iv), key));
  }

  /** The keyring releases an AES key for this blob when CBC was selected. */
  predicate ReleasedForCbc(env: Env, cfg: GetConfig, blob: bytes, wrapping: string, stored: Dict, request: Dict) {
    var r := UnwrapDataKey(env.kms, cfg.legacyWrapping, EncryptedDataKey(Text(wrapping), blob), Object(stored), request,
                           Some(AesCbcNoKdf));
    r.Ok? && IsAesKey(r.value)
  }

  ghost predicate ContentKeysMeanV3(env: Env, cfg: GetConfig) {
    forall headers, instruction, request, key ::
      Decide(env, cfg, headers, instruction, request).Ok? && key in V3_CONTENT_KEYS && Get(headers, key) != Null ==>
        Decide(env, cfg, headers, instruction, request).value.format.V3?
  }

  /** Accepted objects with a V3 content key in their own headers are all V3 exactly when legacy
      modes are off, or the policy is the strictest, or no data key can be had for CBC at all. */
  lemma ContentKeysMeanV3Exactly(env: Env, cfg: GetConfig)
    requires env.codec.Lawful()
    ensures ContentKeysMeanV3(env, cfg) <==>
            || !cfg.legacyModes
            || cfg.policy.RequireEncryptRequireDecrypt?
            || forall blob, wrapping, stored, request :: !ReleasedForCbc(env, cfg, blob, wrapping, stored, request)
  {
    forall headers, instruction, request, key |
      Decide(env, cfg, headers, instruction, request).Ok? && key in V3_CONTENT_KEYS && Get(headers, key) != Null
      && !Decide(env, cfg, headers, instruction, request).value.format.V3?
      ensures cfg.legacyModes && !cfg.policy.RequireEncryptRequireDecrypt?
      ensures exists blob, wrapping, stored, r :: ReleasedForCbc(env, cfg, blob, wrapping, stored, r)
    {
      ContentKeysMeanV3OrLegacyV1(env, cfg, headers, instruction, request, key);
      V1NeedsCbcKey(env, cfg, ResolveMetadata(env.codec, cfg, headers, instruction).value, request);
    }
    if cfg.legacyModes && !cfg.policy.RequireEncryptRequireDecrypt? {
      forall blob, wrapping, stored, request | ReleasedForCbc(env, cfg, blob, wrapping, stored, request)
        ensures !ContentKeysMeanV3(env, cfg)
      {
        var iv: bytes := seq(BLOCK, _ => 0);
        V1WithContentKeyIsAccepted(env, cfg, blob, iv, wrapping, stored, request, "");
        assert Get(V1Headers(env.codec, blob, iv, wrapping, stored, ""), CipherV3) != Null;
      }
    }
  }

  lemma V1NeedsCbcKey(env: Env, cfg: GetConfig, m: ObjectMetadata, request: Dict)
    requires DecideOn(env, cfg, m, request).Ok? && DecideOn(env, cfg, m, request).value.format.V1?
    ensures exists blob, wrapping, stored, r :: ReleasedForCbc(env, cfg, blob, wrapping, stored, r)
  {
    var a := DecideOn(env, cfg, m, request).value;
    var k := AcceptedPassedChecks(env, cfg, m, request);
    AcceptedFormatMatchesSuite(env, cfg, m, request);
    var info, blob, stored := KeyringWasAsked(env, cfg, m, a.format, request, a.suite);
    assert ReleasedForCbc(env, cfg, blob, info.text, stored.entries, request);
  }

  /** With a data key made for CBC at hand, that is a matter of the configuration alone. */
  lemma ContentKeysMeanV3ByConfig(env: Env, cfg: GetConfig, blob: bytes)
    requires env.codec.Lawful()
    requires blob in env.kms && env.kms[blob].context == BoundContext(map[], AesCbcNoKdf) && IsAesKey(env.kms[blob].key)
    ensures ContentKeysMeanV3(env, cfg) <==> !cfg.legacyModes || cfg.policy.RequireEncryptRequireDecrypt?
  {
    var bound := BoundContext(map[], AesCbcNoKdf);
    assert WithoutReserved(map[]) == map[];
    UnwrapsExactlyAsBound(env.kms, cfg.legacyWrapping, blob, map[], AesCbcNoKdf, Object(bound), map[], AesCbcNoKdf);
    assert ReleasedForCbc(env, cfg, blob, KMS_CONTEXT, bound, map[]);
    ContentKeysMeanV3Exactly(env, cfg);
  }

  // ---- What binds an accepted object to the context of its data key ----

  /** The object is unwrapped with this blob. */
  ghost predicate UsesBlob(codec: Codec, a: Accepted, blob: bytes) {
    codec.Base64Value(if a.format.V1? then a.metadata.dataKeyV1
                      else if a.format.V2? then a.metadata.dataKeyV2 else a.metadata.dataKeyV3) == Ok(blob)
  }

  ghost predicate Bound(a: Accepted, request: Dict, suite: AlgorithmSuite, context: Dict) {
    a.suite == suite && request == WithoutReserved(context)
  }

  /** An accepted object gets the data key its blob was made for. It is bound to the suite and the
      context of that data key, or it names the legacy wrapping, which binds neither. */
  lemma AcceptedIsBoundOrLegacy(env: Env, cfg: GetConfig, m: ObjectMetadata, request: Dict,
                                blob: bytes, suite: AlgorithmSuite, context: Dict)
    requires DecideOn(env, cfg, m, request).Ok? && UsesBlob(env.codec, DecideOn(env, cfg, m, request).value, blob)
    requires blob in env.kms && env.kms[blob].context == BoundContext(context, suite)
    ensures var a := DecideOn(env, cfg, m, request).value;
            && a.dataKey == env.kms[blob].key
            && (|| Bound(a, request, suite, context)
                || (!a.format.V3? && m.wrapAlg == Text(KMS_V1) && cfg.legacyWrapping && request == map[]))
  {
    var a := DecideOn(env, cfg, m, request).value;
    var k := AcceptedPassedChecks(env, cfg, m, request);
    var info, b, stored := KeyringWasAsked(env, cfg, m, a.format, request, a.suite);
    if info == Text(KMS_CONTEXT) {
      UnwrapsExactlyAsBound(env.kms, cfg.legacyWrapping, blob, context, suite, stored, request, a.suite);
    }
  }

  /** V2 headers that name the legacy wrapping. */
  function LegacyWrappedHeaders(codec: Codec, blob: bytes, iv: bytes, stored: Dict, cipher: string): Headers {
    map[DataKeyV2 := Text(codec.b64encode(blob)), Iv := Text(codec.b64encode(iv)), CekAlg := Text(cipher),
        MatDesc := Text(codec.dumps(Object(stored))), WrapAlg := Text(KMS_V1)]
  }

  /** With legacy wrapping on, a data key is released for any suite that has no commitment. */
  lemma LegacyWrappingIsAccepted(env: Env, cfg: GetConfig, blob: bytes, iv: bytes, selected: AlgorithmSuite)
    requires env.codec.Lawful() && |iv| == BLOCK && blob in env.kms && IsAesKey(env.kms[blob].key)
    requires cfg.legacyWrapping && !cfg.policy.RequireEncryptRequireDecrypt?
    requires selected.AesGcmNoKdf? || (selected.AesCbcNoKdf? && cfg.legacyModes)
    ensures var d := Decide(env, cfg, LegacyWrappedHeaders(env.codec, blob, iv, env.kms[blob].context, selected.ContentCipher()),
                            None, map[]);
            d.Ok? && d.value.suite == selected && UsesBlob(env.codec, d.value, blob)
  {
    var stored := env.kms[blob].context;
    var m := FromDict(env.codec, LegacyWrappedHeaders(env.codec, blob, iv, stored, selected.ContentCipher())).value;
    AcceptsV2(env, cfg, m, map[], blob, iv, KMS_V1, stored, selected);
  }

  /** Every accepted object of this blob is decrypted with its suite, for its context. */
  ghost predicate BlobIsBound(env: Env, cfg: GetConfig, blob: bytes, suite: AlgorithmSuite, context: Dict) {
    forall headers, instruction, request ::
      Decide(env, cfg, headers, instruction, request).Ok?
      && UsesBlob(env.codec, Decide(env, cfg, headers, instruction, request).value, blob) ==>
        Bound(Decide(env, cfg, headers, instruction, request).value, request, suite, context)
  }

  /** When legacy wrapping cannot undo the binding: it is off, or cannot be used, or the data key
      was made for the one suite and context it would be used with anyway. */
  predicate LegacyWrappingIsHarmless(cfg: GetConfig, key: bytes, suite: AlgorithmSuite, context: Dict) {
    || !cfg.legacyWrapping
    || cfg.policy.RequireEncryptRequireDecrypt?
    || !IsAesKey(key)
    || (suite.AesGcmNoKdf? && !cfg.legacyModes && WithoutReserved(context) == map[])
  }

  /** Suite and context binding holds for a data key exactly when legacy wrapping is harmless. */
  lemma BlobIsBoundExactly(env: Env, cfg: GetConfig, blob: bytes, suite: AlgorithmSuite, context: Dict)
    requires env.codec.Lawful() && blob in env.kms && env.kms[blob].context == BoundContext(context, suite)
    ensures BlobIsBound(env, cfg, blob, suite, context) <==> LegacyWrappingIsHarmless(cfg, env.kms[blob].key, suite, context)
  {
    if LegacyWrappingIsHarmless(cfg, env.kms[blob].key, suite, context) {
      forall headers, instruction, request |
        Decide(env, cfg, headers, instruction, request).Ok?
        && UsesBlob(env.codec, Decide(env, cfg, headers, instruction, request).value, blob)
        ensures Bound(Decide(env, cfg, headers, instruction, request).value, request, suite, context)
      {
        HarmlessIsBound(env, cfg, ResolveMetadata(env.codec, cfg, headers, instruction).value, request, blob, suite, context);
      }
    } else {
      var selected := if suite.AesGcmNoKdf? && WithoutReserved(context) == map[] then AesCbcNoKdf else AesGcmNoKdf;
      var iv: bytes := seq(BLOCK, _ => 0);
      LegacyWrappingIsAccepted(env, cfg, blob, iv, selected);
      var headers := LegacyWrappedHeaders(env.codec, blob, iv, env.kms[blob].context, selected.ContentCipher());
      assert !Bound(Decide(env, cfg, headers, None, map[]).value, map[], suite, context);
    }
  }

  lemma HarmlessIsBound(env: Env, cfg: GetConfig, m: ObjectMetadata, request: Dict,
                        blob: bytes, suite: AlgorithmSuite, context: Dict)
    requires DecideOn(env, cfg, m, request).Ok? && UsesBlob(env.codec, DecideOn(env, cfg, m, request).value, blob)
    requires blob in env.kms && env.kms[blob].context == BoundContext(context, suite)
    requires LegacyWrappingIsHarmless(cfg, env.kms[blob].key, suite, context)
    ensures Bound(DecideOn(env, cfg, m, request).value, request, suite, context)
  {
    var k := AcceptedPassedChecks(env, cfg, m, request);
    AcceptedIsBoundOrLegacy(env, cfg, m, request, blob, suite, context);
    AcceptedFormatMatchesSuite(env, cfg, m, request);
    AcceptedObeysPolicy(env, cfg, m, request);
    CipherNeeds(env, m, DecideOn(env, cfg, m, request).value.suite, k);
  }

  // ---- Objects described by their instruction file alone ----

  /** An object without client headers is read through its instruction file: here a V2 object whose
      metadata are the instruction object's. */
  lemma InstructionFileIsRead(env: Env, cfg: GetConfig, blob: bytes, iv: bytes, context: Dict)
    requires env.codec.Lawful() && 8 <= |iv| <= 128 && blob in env.kms && IsAesKey(env.kms[blob].key)
    requires env.kms[blob].context == BoundContext(context, AesGcmNoKdf)
    requires !cfg.disableInstructionFile && !cfg.policy.RequireEncryptRequireDecrypt?
    ensures var file := InstructionObject(
              map[DataKeyV2 := env.codec.b64encode(blob), WrapAlg := KMS_CONTEXT, Iv := env.codec.b64encode(iv),
                  CekAlg := "AES/GCM/NoPadding", MatDesc := env.codec.dumps(Object(env.kms[blob].context))],
              env.codec.dumps(Object(map[])));
            var d := Decide(env, cfg, map[], Some(file), WithoutReserved(context));
            d.Ok? && d.value.format.V2? && d.value.dataKey == env.kms[blob].key
  {
    var stored := env.kms[blob].context;
    var own := map[DataKeyV2 := env.codec.b64encode(blob), WrapAlg := KMS_CONTEXT, Iv := env.codec.b64encode(iv),
                   CekAlg := "AES/GCM/NoPadding", MatDesc := env.codec.dumps(Object(stored))];
    assert DataKeyV2 in own;
    var m := FromDict(env.codec, TextHeaders(own)).value;
    ResolveFromFile(env.codec, cfg, own);
    UnwrapsExactlyAsBound(env.kms, cfg.legacyWrapping, blob, context, AesGcmNoKdf, Object(stored), WithoutReserved(context), AesGcmNoKdf);
    AcceptsV2(env, cfg, m, WithoutReserved(context), blob, iv, KMS_CONTEXT, stored, AesGcmNoKdf);
  }

  /** Without client headers on the object, the instruction object's metadata stand alone. */
  lemma ResolveFromFile(codec: Codec, cfg: GetConfig, own: map<Header, string>)
    requires codec.Lawful() && !cfg.disableInstructionFile
    requires own != map[] && own.Keys !! V3_CONTENT_KEYS && FromDict(codec, TextHeaders(own)).Ok?
    ensures ResolveMetadata(codec, cfg, map[], Some(InstructionObject(own, codec.dumps(Object(map[])))))
            == Ok(FromDict(codec, TextHeaders(own)).value)
  {
    var file, empty: Headers := InstructionObject(own, codec.dumps(Object(map[]))), map[];
    assert FromDict(codec, empty).value.ShouldUseInstructionFile();
    assert ParseInstructionFile(codec, file.body) == Ok(empty);
    assert TextHeaders(own) + empty == TextHeaders(own);
    var key :| key in own;
    assert key in TextHeaders(own);
    assert FetchInstructionFile(codec, Some(file)) == Ok(TextHeaders(own));
  }

  /** V2 metadata whose data key the keyring releases are accepted, as far as policy and suite go. */
  lemma AcceptsV2(env: Env, cfg: GetConfig, m: ObjectMetadata, request: Dict, blob: bytes, iv: bytes,
                  wrapping: string, stored: Dict, selected: AlgorithmSuite)
    requires env.codec.Lawful() && m.dataKeyV2 == Text(env.codec.b64encode(blob)) && m.iv == Text(env.codec.b64encode(iv))
    requires m.wrapAlg == Text(wrapping) && m.cekAlg == Text(selected.ContentCipher()) && m.context == Object(stored)
    requires m.dataKeyV1 == Null && m.dataKeyV3 == Null && m.cipherV3 == Null && m.commitmentV3 == Null && m.messageIdV3 == Null
    requires var r := UnwrapDataKey(env.kms, cfg.legacyWrapping, EncryptedDataKey(Text(wrapping), blob), Object(stored), request,
                                    Some(selected));
             r.Ok? && IsAesKey(r.value)
    requires !cfg.policy.RequireEncryptRequireDecrypt?
    requires if selected.AesCbcNoKdf? then |iv| == BLOCK && cfg.legacyModes else selected.AesGcmNoKdf? && 8 <= |iv| <= 128
    ensures DecideOn(env, cfg, m, request).Ok?
    ensures var a := DecideOn(env, cfg, m, request).value;
            && a.suite == selected && a.format.V2? && a.metadata == m
            && Ok(a.dataKey) == UnwrapDataKey(env.kms, cfg.legacyWrapping, EncryptedDataKey(Text(wrapping), blob),
                                              Object(stored), request, Some(selected))
  {
    ContentCipherIdentifiesSuite(selected.ContentCipher(), selected);
    var key := UnwrapDataKey(env.kms, cfg.legacyWrapping, EncryptedDataKey(Text(wrapping), blob), Object(stored), request,
                             Some(selected)).value;
    assert DetermineSuite(m) == Ok(selected) && FormatOf(m) == Ok(V2) && CheckFormat(m) == Ok(());
    assert DataKeyOf(env, cfg, m, V2, request, selected) == Ok(KeyAndIv(Some(iv), key));
    assert CheckPolicy(cfg, selected) == Ok(());
  }
}
