/** The client's own objects composed: upload a readable, then get the object and read it. */
module EndToEnd {
  import opened Wrappers
  import opened AesGcm
  import opened Materials
  import opened Metadata
  import opened Kms
  import opened GetPipeline
  import opened PutPipeline
  import opened Stream
  import opened RoundTrip
  import opened Client

  /** The facts of a write that the keyring and the client's preparation just made. */
  lemma JustWritten(env: Env, suite: AlgorithmSuite, table: KmsTable, context: Dict, key: bytes, blob: bytes, nonce: bytes)
    requires env.codec.Lawful() && !suite.IsLegacy() && |key| == DATA_KEY_LENGTH && |nonce| == suite.NonceLength()
    requires env.kms == WithDataKey(table, blob, context, suite, key)
    ensures Prepare(env.prim, env.codec, suite, BoundContext(context, suite), key, blob, nonce).Ok?
    ensures Written(env, suite, context, key, blob, nonce,
                    Prepare(env.prim, env.codec, suite, BoundContext(context, suite), key, blob, nonce).value)
  {
  }

  /** Put, then get with any request: the put succeeds exactly when KMS gives a data key; the object is accepted exactly
      for harmless headers and the context without the reserved keys, and its body then gives back
      the plaintext, in both authentication modes and for every read size. */
  method PutAndReadBack(keyring: KmsKeyring, prim: Primitives, codec: Codec, cfg: GetConfig, suite: AlgorithmSuite,
                        context: Dict, plaintext: bytes, blob: bytes, key: bytes, nonce: bytes, user: map<Header, string>,
                        instruction: Option<InstructionObject>, request: Dict, schedule: Schedule, readSize: nat)
    returns (put: Result<(), PutError>, back: Option<Result<bytes, Failure>>)
    requires blob !in keyring.kms.table && |key| == DATA_KEY_LENGTH && |nonce| == suite.NonceLength() && readSize > 0
    requires codec.Lawful() && ValidateConfig(suite, cfg.policy).Ok?
    modifies keyring.kms
    ensures put.Ok? <==> old(keyring.kms.NextSucceeds())
    ensures put.Err? ==> put.error.NoDataKey? && keyring.kms.table == old(keyring.kms.table)
    ensures put.Ok? ==>
              back == if HarmlessUserHeaders(codec, suite, user) && request == WithoutReserved(context)
                      then Some(Ok(plaintext)) else None
  {
    ghost var before := keyring.kms.table;
    var encrypted := Encrypt(keyring, prim, codec, suite, context, plaintext, blob, key, nonce);
    ghost var after := WithDataKey(before, blob, context, suite, key);
    JustWritten(Env(prim, codec, after), suite, before, context, key, blob, nonce);
    if encrypted.Err? {
      return Err(encrypted.error), None;
    }
    var (body, headers) := encrypted.value;
    var env := Env(prim, codec, keyring.kms.table);
    ghost var e := Prepare(prim, codec, suite, BoundContext(context, suite), key, blob, nonce).value;
    ReadsBackExactly(env, cfg, suite, context, key, blob, nonce, e, user, instruction, request);
    var decision := Decide(env, cfg, TextHeaders(user) + headers, instruction, request);
    if decision.Err? {
      return Ok(()), None;
    }
    e.gcm.OpenExactlySealed(body, plaintext);
    var r := ReadBody(decision.value, body, schedule, readSize);
    return Ok(()), Some(r);
  }

  /** For every readable (with any short reads), part size, read size, body that gives any short
      reads, and in both authentication modes: the upload succeeds exactly when the readable is not
      empty and no call to KMS, S3 or the readable fails; getting the object is then accepted exactly
      for harmless headers and the context without the reserved keys, and gives back exactly what the
      readable held. */
  method UploadAndReadBack(client: S3EncryptionClient, readable: Reader, raises: nat -> bool,
                           objectKey: string, chunkSize: nat, newId: string,
                           cfg: GetConfig, context: Dict, key: bytes, blob: bytes, nonce: bytes, user: map<Header, string>,
                           instruction: Option<InstructionObject>, request: Dict, schedule: Schedule, readSize: nat)
    returns (uploaded: Result<(), ClientError>, back: Option<Result<bytes, Failure>>)
    requires client.Valid() && newId !in client.s3.issued && readable.Valid() && chunkSize > 0 && readSize > 0
    requires blob !in client.keyring.kms.table && |key| == DATA_KEY_LENGTH && |nonce| == client.suite.NonceLength()
    requires client.codec.Lawful() && ValidateConfig(client.suite, cfg.policy).Ok?
    modifies client, client.s3, client.keyring.kms, readable
    ensures var c, start := client.Met(readable, raises, chunkSize), old(readable.position);
            uploaded.Ok? <==>
              && old(client.keyring.kms.NextSucceeds())
              && start < c.size && c.NothingFails(old(client.s3.calls), c.Chunks(start) + 2, start)
    ensures uploaded.Ok? ==>
              back == if HarmlessUserHeaders(client.codec, client.suite, user) && request == WithoutReserved(context)
                      then Some(Ok(readable.data[old(readable.position)..])) else None
  {
    ghost var plaintext, before := readable.data[readable.position..], client.keyring.kms.table;
    uploaded := client.MultipartUploadFromReadable(readable, raises, objectKey, chunkSize, newId, context, user,
                                                   blob, key, nonce);
    ghost var after := WithDataKey(before, blob, context, client.suite, key);
    JustWritten(Env(client.prim, client.codec, after), client.suite, before, context, key, blob, nonce);
    if uploaded.Err? {
      return uploaded, None;
    }
    var stored := client.s3.objects[objectKey];
    var env := Env(client.prim, client.codec, client.keyring.kms.table);
    ghost var e := client.Prepared(context, blob, key, nonce).value;
    ReadsBackExactly(env, cfg, client.suite, context, key, blob, nonce, e, user, instruction, request);
    e.gcm.OpenExactlySealed(stored.data, plaintext);
    var decision := Decide(env, cfg, stored.headers, instruction, request);
    if decision.Err? {
      return Ok(()), None;
    }
    var r := ReadBody(decision.value, stored.data, schedule, readSize);
    back := Some(r);
  }

  /** Open the body of an accepted object and read it to its end. */
  method ReadBody(accepted: Accepted, data: bytes, schedule: Schedule, readSize: nat) returns (r: Result<bytes, Failure>)
    requires readSize > 0
    ensures r == accepted.spec.Whole(data)
  {
    var body := new Reader(data, schedule);
    var response := OpenBody(accepted, body, |data|);
    match response {
      case Err(failure) => r := Err(failure);
      case Ok(Buffered(all)) => r := Ok(all);
      case Ok(Streaming(stream)) => r := stream.Drain(readSize);
    }
  }
}
