/** Writing an object and reading it back: the pipelines composed. */
module RoundTrip {
  import opened Wrappers
  import opened AesGcm
  import opened Chunks
  import opened Decryptors
  import opened Materials
  import opened Metadata
  import opened Kms
  import opened GetPipeline
  import opened PutPipeline
  import opened Stream
  import opened StreamRuns
  import opened Multipart

  lemma GetOver(user: map<Header, string>, h: Headers, key: Header)
    requires NoNulls(h)
    ensures Get(TextHeaders(user) + h, key) ==
            if Get(h, key) != Null then Get(h, key) else if key in user then Text(user[key]) else Null
  {
  }

  /** The client headers a user may pass as metadata of their own without making the object
      unreadable. */
  predicate HarmlessUserHeaders(codec: Codec, suite: AlgorithmSuite, user: map<Header, string>) {
    if suite.AesGcmCommitKey? then
      && DataKeyV1 !in user && DataKeyV2 !in user
      && (MatDesc in user ==> codec.loads(user[MatDesc]).Some?)
    else
      && DataKeyV1 !in user && DataKeyV3 !in user
      && CipherV3 !in user && CommitmentV3 !in user && MessageIdV3 !in user
  }

  /** The facts of one write: a data key in KMS for the bound context, and what it prepares. */
  ghost predicate Written(env: Env, suite: AlgorithmSuite, context: Dict, key: bytes, blob: bytes, nonce: bytes, e: Encryption) {
    && env.codec.Lawful()
    && !suite.IsLegacy()
    && |key| == DATA_KEY_LENGTH && |nonce| == suite.NonceLength()
    && blob in env.kms && env.kms[blob] == Entry(BoundContext(context, suite), key)
    && Prepare(env.prim, env.codec, suite, BoundContext(context, suite), key, blob, nonce) == Ok(e)
  }

  /** Headers of a non-committing object, under whatever the user wrote. */
  lemma ReadOverPlain(codec: Codec, user: map<Header, string>, m: ObjectMetadata, h: Headers)
    requires codec.Lawful() && NoNulls(h) && HoldsV1V2(codec, m, h) && HoldsV3(codec, m, h)
    requires m.IsV2() && m.context != Null
    requires m.dataKeyV3 == Null && m.cipherV3 == Null && m.commitmentV3 == Null && m.messageIdV3 == Null
    ensures FromDict(codec, TextHeaders(user) + h).Ok?
    ensures var r := FromDict(codec, TextHeaders(user) + h).value;
            && r.dataKeyV2 == m.dataKeyV2 && r.wrapAlg == m.wrapAlg && r.iv == m.iv && r.cekAlg == m.cekAlg && r.context == m.context
            && (r.dataKeyV1 == Null <==> DataKeyV1 !in user) && (r.dataKeyV3 == Null <==> DataKeyV3 !in user)
            && (r.cipherV3 == Null <==> CipherV3 !in user) && (r.commitmentV3 == Null <==> CommitmentV3 !in user)
            && (r.messageIdV3 == Null <==> MessageIdV3 !in user)
  {
    GetOver(user, h, DataKeyV1); GetOver(user, h, DataKeyV2); GetOver(user, h, WrapAlg);
    GetOver(user, h, MatDesc); GetOver(user, h, Iv); GetOver(user, h, CekAlg);
    GetOver(user, h, DataKeyV3); GetOver(user, h, CipherV3);
    GetOver(user, h, CommitmentV3); GetOver(user, h, MessageIdV3);
  }

  /** Headers of a committing object, under whatever the user wrote. */
  lemma ReadOverCommitting(codec: Codec, user: map<Header, string>, m: ObjectMetadata, h: Headers)
    requires codec.Lawful() && NoNulls(h) && HoldsV1V2(codec, m, h) && HoldsV3(codec, m, h)
    requires m.IsV3() && m.context == Null && m.contextV3.Object?
    ensures FromDict(codec, TextHeaders(user) + h).Ok? <==> (MatDesc in user ==> codec.loads(user[MatDesc]).Some?)
    ensures FromDict(codec, TextHeaders(user) + h).Ok? ==>
              var r := FromDict(codec, TextHeaders(user) + h).value;
              && r.cipherV3 == m.cipherV3 && r.wrapAlgV3 == m.wrapAlgV3 && r.dataKeyV3 == m.dataKeyV3
              && r.messageIdV3 == m.messageIdV3 && r.commitmentV3 == m.commitmentV3
              && r.contextV3 == Text(codec.dumps(m.contextV3))
              && (r.dataKeyV1 == Null <==> DataKeyV1 !in user) && (r.dataKeyV2 == Null <==> DataKeyV2 !in user)
  {
    GetOver(user, h, DataKeyV1); GetOver(user, h, DataKeyV2); GetOver(user, h, MatDesc);
    GetOver(user, h, DataKeyV3); GetOver(user, h, CipherV3); GetOver(user, h, WrapAlgV3); GetOver(user, h, ContextV3);
    GetOver(user, h, CommitmentV3); GetOver(user, h, MessageIdV3);
  }

  lemma StoredHeadersHold(codec: Codec, m: ObjectMetadata)
    ensures NoNulls(Dictionary(codec, m)) && HoldsV1V2(codec, m, Dictionary(codec, m)) && HoldsV3(codec, m, Dictionary(codec, m))
  {
    DictionaryHolds(codec, m);
  }

  /** A non-committing object on its own metadata: read exactly for the right request. */
  lemma PlainDecision(env: Env, cfg: GetConfig, context: Dict, key: bytes, blob: bytes, nonce: bytes, e: Encryption,
                      r: ObjectMetadata, request: Dict)
    requires Written(env, AesGcmNoKdf, context, key, blob, nonce, e)
    requires ValidateConfig(AesGcmNoKdf, cfg.policy).Ok?
    requires r.dataKeyV2 == e.metadata.dataKeyV2 && r.wrapAlg == e.metadata.wrapAlg && r.iv == e.metadata.iv
    requires r.cekAlg == e.metadata.cekAlg && r.context == e.metadata.context
    requires r.dataKeyV1 == Null && r.dataKeyV3 == Null
    requires r.cipherV3 == Null && r.commitmentV3 == Null && r.messageIdV3 == Null
    ensures !r.ShouldUseInstructionFile()
    ensures DecideOn(env, cfg, r, request).Ok? <==> request == WithoutReserved(context)
    ensures DecideOn(env, cfg, r, request).Ok? ==>
              var a := DecideOn(env, cfg, r, request).value;
              a == Accepted(V2, AesGcmNoKdf, r, key, GcmSpec(e.gcm), cfg.delayedAuthentication)
  {
    ContentCipherIdentifiesSuite("AES/GCM/NoPadding", AesGcmNoKdf);
    var bound := BoundContext(context, AesGcmNoKdf);
    assert CEK_ALG in bound;
    UnwrapsExactlyAsBound(env.kms, cfg.legacyWrapping, blob, context, AesGcmNoKdf, Object(bound), request, AesGcmNoKdf);
    assert DetermineSuite(r) == Ok(AesGcmNoKdf) && FormatOf(r) == Ok(V2) && CheckFormat(r) == Ok(());
    assert CheckPolicy(cfg, AesGcmNoKdf) == Ok(());
    assert DataKeyOf(env, cfg, r, V2, request, AesGcmNoKdf).Ok? <==> request == WithoutReserved(context);
    if request == WithoutReserved(context) {
      var k := DataKeyOf(env, cfg, r, V2, request, AesGcmNoKdf).value;
      assert k == KeyAndIv(Some(nonce), key);
      assert CipherOf(env, r, AesGcmNoKdf, k) == Ok(GcmSpec(e.gcm));
    }
  }

  /** A committing object on its own metadata: read exactly for the right request. */
  lemma CommittingDecision(env: Env, cfg: GetConfig, context: Dict, key: bytes, blob: bytes, nonce: bytes, e: Encryption,
                           r: ObjectMetadata, request: Dict)
    requires Written(env, AesGcmCommitKey, context, key, blob, nonce, e)
    requires r.cipherV3 == e.metadata.cipherV3 && r.wrapAlgV3 == e.metadata.wrapAlgV3 && r.dataKeyV3 == e.metadata.dataKeyV3
    requires r.messageIdV3 == e.metadata.messageIdV3 && r.commitmentV3 == e.metadata.commitmentV3
    requires r.contextV3 == Text(env.codec.dumps(e.metadata.contextV3))
    requires r.dataKeyV1 == Null && r.dataKeyV2 == Null
    ensures !r.ShouldUseInstructionFile()
    ensures DecideOn(env, cfg, r, request).Ok? <==> request == WithoutReserved(context)
    ensures DecideOn(env, cfg, r, request).Ok? ==>
              var a := DecideOn(env, cfg, r, request).value;
              a == Accepted(V3, AesGcmCommitKey, r, key, GcmSpec(e.gcm), cfg.delayedAuthentication)
  {
    ContentCipherIdentifiesSuite("115", AesGcmCommitKey);
    var bound := BoundContext(context, AesGcmCommitKey);
    assert CEK_ALG in bound;
    UnwrapsExactlyAsBound(env.kms, cfg.legacyWrapping, blob, context, AesGcmCommitKey, Object(bound), request, AesGcmCommitKey);
    assert DetermineSuite(r) == Ok(AesGcmCommitKey) && FormatOf(r) == Ok(V3) && CheckFormat(r) == Ok(());
    assert CheckPolicy(cfg, AesGcmCommitKey) == Ok(());
    assert V3Wrapping(r.wrapAlgV3) == Ok(KMS_CONTEXT);
    assert V3Context(env.codec, r.contextV3) == Ok(Object(bound));
    assert DataKeyOf(env, cfg, r, V3, request, AesGcmCommitKey).Ok? <==> request == WithoutReserved(context);
    if request == WithoutReserved(context) {
      var k := DataKeyOf(env, cfg, r, V3, request, AesGcmCommitKey).value;
      assert k == KeyAndIv(None, key);
      assert CipherOf(env, r, AesGcmCommitKey, k) == Ok(GcmSpec(e.gcm));
    }
  }

  /** A user's own client headers that clash with a non-committing object make it unreadable,
      whatever an instruction file says. */
  lemma HarmfulHeadersRejectPlain(env: Env, cfg: GetConfig, headers: Headers, instruction: Option<InstructionObject>, request: Dict)
    requires FromDict(env.codec, headers).Ok?
    requires var r := FromDict(env.codec, headers).value;
             && r.dataKeyV2 != Null && r.wrapAlg != Null && r.iv != Null && r.cekAlg != Null
             && (r.dataKeyV1 != Null || r.dataKeyV3 != Null || r.cipherV3 != Null || r.commitmentV3 != Null || r.messageIdV3 != Null)
    ensures Decide(env, cfg, headers, instruction, request).Err?
  {
    if Decide(env, cfg, headers, instruction, request).Ok? {
      var m := ResolveMetadata(env.codec, cfg, headers, instruction).value;
      AcceptedFormatMatchesSuite(env, cfg, m, request);
    }
  }

  /** The same for a committing object with another format's key among the user's headers. */
  lemma HarmfulHeadersRejectCommitting(env: Env, cfg: GetConfig, headers: Headers, instruction: Option<InstructionObject>, request: Dict)
    requires FromDict(env.codec, headers).Ok?
    requires var r := FromDict(env.codec, headers).value;
             r.dataKeyV3 != Null && (r.dataKeyV1 != Null || r.dataKeyV2 != Null)
    ensures Decide(env, cfg, headers, instruction, request).Err?
  {
    if Decide(env, cfg, headers, instruction, request).Ok? {
      var m := ResolveMetadata(env.codec, cfg, headers, instruction).value;
      AcceptedFormatMatchesSuite(env, cfg, m, request);
    }
  }

  /** What accepting a client's own write means. */
  ghost predicate AcceptsAsWritten(cfg: GetConfig, suite: AlgorithmSuite, e: Encryption, a: Accepted) {
    && a.suite == suite
    && a.spec == GcmSpec(e.gcm)
    && a.format == (if suite.AesGcmCommitKey? then V3 else V2)
    && a.streaming == cfg.delayedAuthentication
  }

  lemma ReadsBackPlain(env: Env, cfg: GetConfig, context: Dict, key: bytes, blob: bytes, nonce: bytes,
                       e: Encryption, user: map<Header, string>, instruction: Option<InstructionObject>, request: Dict)
    requires ValidateConfig(AesGcmNoKdf, cfg.policy).Ok?
    requires Written(env, AesGcmNoKdf, context, key, blob, nonce, e)
    ensures var d := Decide(env, cfg, StoredHeaders(env.codec, user, e.metadata), instruction, request);
            && (d.Ok? <==> HarmlessUserHeaders(env.codec, AesGcmNoKdf, user) && request == WithoutReserved(context))
            && (d.Ok? ==> AcceptsAsWritten(cfg, AesGcmNoKdf, e, d.value))
  {
    var headers := StoredHeaders(env.codec, user, e.metadata);
    StoredHeadersHold(env.codec, e.metadata);
    ReadOverPlain(env.codec, user, e.metadata, Dictionary(env.codec, e.metadata));
    var r := FromDict(env.codec, headers).value;
    if HarmlessUserHeaders(env.codec, AesGcmNoKdf, user) {
      PlainDecision(env, cfg, context, key, blob, nonce, e, r, request);
      assert ResolveMetadata(env.codec, cfg, headers, instruction) == Ok(r);
    } else {
      HarmfulHeadersRejectPlain(env, cfg, headers, instruction, request);
    }
  }

  lemma ReadsBackCommitting(env: Env, cfg: GetConfig, context: Dict, key: bytes, blob: bytes, nonce: bytes,
                            e: Encryption, user: map<Header, string>, instruction: Option<InstructionObject>, request: Dict)
    requires Written(env, AesGcmCommitKey, context, key, blob, nonce, e)
    ensures var d := Decide(env, cfg, StoredHeaders(env.codec, user, e.metadata), instruction, request);
            && (d.Ok? <==> HarmlessUserHeaders(env.codec, AesGcmCommitKey, user) && request == WithoutReserved(context))
            && (d.Ok? ==> AcceptsAsWritten(cfg, AesGcmCommitKey, e, d.value))
  {
    var headers := StoredHeaders(env.codec, user, e.metadata);
    StoredHeadersHold(env.codec, e.metadata);
    assert CEK_ALG in BoundContext(context, AesGcmCommitKey);
    ReadOverCommitting(env.codec, user, e.metadata, Dictionary(env.codec, e.metadata));
    var read := FromDict(env.codec, headers);
    if HarmlessUserHeaders(env.codec, AesGcmCommitKey, user) {
      CommittingDecision(env, cfg, context, key, blob, nonce, e, read.value, request);
      assert ResolveMetadata(env.codec, cfg, headers, instruction) == Ok(read.value);
    } else if read.Ok? {
      HarmfulHeadersRejectCommitting(env, cfg, headers, instruction, request);
    }
  }

  /** Every valid configuration reads back its own writes, exactly: whatever the user's metadata
      and whatever instruction file is around, an object is accepted if and only if the user's
      own client headers were harmless and the request context is the original one without the
      reserved keys; and then it is decrypted with the cipher it was written with. */
  lemma ReadsBackExactly(env: Env, cfg: GetConfig, suite: AlgorithmSuite, context: Dict, key: bytes, blob: bytes, nonce: bytes,
                         e: Encryption, user: map<Header, string>, instruction: Option<InstructionObject>, request: Dict)
    requires ValidateConfig(suite, cfg.policy).Ok?
    requires Written(env, suite, context, key, blob, nonce, e)
    ensures var d := Decide(env, cfg, StoredHeaders(env.codec, user, e.metadata), instruction, request);
            && (d.Ok? <==> HarmlessUserHeaders(env.codec, suite, user) && request == WithoutReserved(context))
            && (d.Ok? ==> AcceptsAsWritten(cfg, suite, e, d.value))
  {
    if suite.AesGcmCommitKey? {
      ReadsBackCommitting(env, cfg, context, key, blob, nonce, e, user, instruction, request);
    } else {
      ReadsBackPlain(env, cfg, context, key, blob, nonce, e, user, instruction, request);
    }
  }

  /** What was put comes back under the same context exactly when that context uses no reserved
      key and the user's headers were harmless: then one-shot decryption of the stored body
      gives the plaintext. */
  lemma PutThenGet(env: Env, cfg: GetConfig, suite: AlgorithmSuite, context: Dict, key: bytes, blob: bytes, nonce: bytes,
                   e: Encryption, user: map<Header, string>, instruction: Option<InstructionObject>, plaintext: bytes)
    requires ValidateConfig(suite, cfg.policy).Ok?
    requires Written(env, suite, context, key, blob, nonce, e)
    ensures var d := Decide(env, cfg, StoredHeaders(env.codec, user, e.metadata), instruction, context);
            && (d.Ok? <==>
                  HarmlessUserHeaders(env.codec, suite, user) && "aws:x-amz-cek-alg" !in context && "kms_cmk_id" !in context)
            && (d.Ok? ==> d.value.spec.Whole(e.gcm.Seal(plaintext)) == Ok(plaintext))
  {
    assert WithoutReserved(context) == context <==> CEK_ALG !in context && CMK_ID !in context;
    ReadsBackExactly(env, cfg, suite, context, key, blob, nonce, e, user, instruction, context);
    e.gcm.OpenExactlySealed(e.gcm.Seal(plaintext), plaintext);
  }

  /** A body assembled from all parts of a final upload opens to the accepted plaintext. */
  lemma AssembledBodyOpens(gcm: Gcm, calls: seq<PartCall>)
    requires Multipart.Run(gcm, calls).0.final
    ensures var u := Multipart.Run(gcm, calls).0;
            GcmSpec(gcm).Whole(Concat(Ciphertexts(gcm, u))) == Ok(Concat(u.parts))
  {
    var u := Multipart.Run(gcm, calls).0;
    RunHandsOutOneEncryption(gcm, calls);
    CiphertextsAreOneEncryption(gcm, u, |u.parts|);
    assert Ciphertexts(gcm, u)[..|u.parts|] == Ciphertexts(gcm, u);
    gcm.OpenExactlySealed(Concat(Ciphertexts(gcm, u)), Concat(u.parts));
  }

  /** End to end: for every run of encrypt_part calls (retries and rejected calls included) that
      accepted a final part, the object S3 assembles is accepted exactly for harmless headers and the
      original context without the reserved keys, with the cipher it was written with; and every run
      of reads with sizes other than 0 under that cipher, over a body with any short reads, delivers a
      prefix of the accepted plaintext in part order without an error, and all of it once finished. */
  lemma UploadThenStream(env: Env, cfg: GetConfig, suite: AlgorithmSuite, context: Dict, key: bytes, blob: bytes, nonce: bytes,
                         e: Encryption, user: map<Header, string>, instruction: Option<InstructionObject>,
                         request: Dict, calls: seq<PartCall>, events: seq<ReadEvent>, v: View)
    requires ValidateConfig(suite, cfg.policy).Ok?
    requires Written(env, suite, context, key, blob, nonce, e)
    requires Multipart.Run(e.gcm, calls).0.final && NoZeroReads(events)
    requires var body := Concat(Ciphertexts(e.gcm, Multipart.Run(e.gcm, calls).0));
             StreamRuns.Run(GcmSpec(e.gcm), body, |body|, events, v)
    ensures var d := Decide(env, cfg, StoredHeaders(env.codec, user, e.metadata), instruction, request);
            && (d.Ok? <==> HarmlessUserHeaders(env.codec, suite, user) && request == WithoutReserved(context))
            && (d.Ok? ==> AcceptsAsWritten(cfg, suite, e, d.value))
    ensures var plaintext := Concat(Multipart.Run(e.gcm, calls).0.parts);
            && Errors(events) == []
            && Delivered(events) <= plaintext
            && (v.finalized ==> Delivered(events) == plaintext)
  {
    ReadsBackExactly(env, cfg, suite, context, key, blob, nonce, e, user, instruction, request);
    AssembledBodyOpens(e.gcm, calls);
    StreamingRefinesOneShot(GcmSpec(e.gcm), Concat(Ciphertexts(e.gcm, Multipart.Run(e.gcm, calls).0)), events, v);
  }
}
