/** The client's multipart operations and the look-ahead loop that uploads a readable. */
module Client {
  import opened Wrappers
  import opened AesGcm
  import opened Chunks
  import opened Materials
  import opened Metadata
  import opened Kms
  import opened PutPipeline
  import opened Stream
  import opened Multipart

  datatype ClientError =
    | NotObtained(reason: PutError)   // no data key, or keys could not be derived
    | NoSuchUpload
    | FinalPartMissing
    | PartRejected(cause: PartError)
    | ServiceFailed              // S3 answered with an error
    | SourceFailed               // the readable raised

  datatype StoredObject = StoredObject(headers: Headers, data: bytes)

  /** S3, as far as uploads go. Which of its calls it answers without an error is given by a schedule;
      a failed call changes nothing. */
  class S3Service {
    const answers: nat -> bool
    var calls: nat
    var issued: set<string>
    var parts: map<string, map<int, bytes>>      // open uploads, by id
    var headers: map<string, Headers>            // metadata the upload was created with, by id
    var objects: map<string, StoredObject>       // by object key

    constructor (answers: nat -> bool)
      ensures this.answers == answers && calls == 0
      ensures issued == {} && parts == map[] && headers == map[] && objects == map[]
    {
      this.answers, calls := answers, 0;
      issued, parts, headers, objects := {}, map[], map[], map[];
    }

    ghost predicate Valid()
      reads this
    {
      parts.Keys <= headers.Keys <= issued
    }

    method CreateMultipartUpload(newId: string, metadata: Headers) returns (id: Option<string>)
      requires Valid() && newId !in issued
      modifies this
      ensures Valid() && objects == old(objects) && calls == old(calls) + 1
      ensures id.Some? <==> answers(old(calls))
      ensures id == None ==> issued == old(issued) && parts == old(parts) && headers == old(headers)
      ensures id.Some? ==>
                && id.value == newId && issued == old(issued) + {newId}
                && parts == old(parts)[newId := map[]] && headers == old(headers)[newId := metadata]
    {
      var ok := answers(calls);
      calls := calls + 1;
      if ok {
        issued, parts, headers := issued + {newId}, parts[newId := map[]], headers[newId := metadata];
        return Some(newId);
      }
      return None;
    }

    method UploadPart(id: string, number: int, body: Option<bytes>) returns (ok: bool)
      requires Valid()
      modifies this
      ensures Valid() && issued == old(issued) && objects == old(objects) && headers == old(headers)
      ensures calls == old(calls) + 1
      ensures ok <==> answers(old(calls)) && id in old(parts) && body.Some?
      ensures ok ==> parts == old(parts)[id := old(parts)[id][number := body.value]]
      ensures !ok ==> parts == old(parts)
    {
      ok := answers(calls) && id in parts && body.Some?;
      calls := calls + 1;
      if ok {
        parts := parts[id := parts[id][number := body.value]];
      }
    }

    /** Assemble the listed parts into an object. */
    method CompleteMultipartUpload(id: string, key: string, numbers: seq<int>) returns (ok: bool)
      requires Valid()
      modifies this
      ensures Valid() && issued == old(issued) && calls == old(calls) + 1
      ensures ok <==> answers(old(calls)) && id in old(parts) && Listed(old(parts)[id], numbers)
      ensures parts == if ok then old(parts) - {id} else old(parts)
      ensures ok ==>
                && objects == old(objects)[key := StoredObject(old(headers)[id], Concat(Pick(old(parts)[id], numbers)))]
      ensures !ok ==> objects == old(objects)
    {
      ok := answers(calls) && id in parts && Listed(parts[id], numbers);
      calls := calls + 1;
      if ok {
        objects := objects[key := StoredObject(headers[id], Concat(Pick(parts[id], numbers)))];
        parts := parts - {id};
      }
    }

    method AbortMultipartUpload(id: string) returns (ok: bool)
      requires Valid()
      modifies this
      ensures Valid() && issued == old(issued) && objects == old(objects) && calls == old(calls) + 1
      ensures ok == answers(old(calls)) && parts == if ok then old(parts) - {id} else old(parts)
    {
      ok := answers(calls);
      calls := calls + 1;
      if ok {
        parts := parts - {id};
      }
    }
  }

  /** What an upload of a readable meets: which calls S3 answers, at which positions the readable
      raises, and how much it returns there. */
  datatype Conditions = Conditions(answers: nat -> bool, raises: nat -> bool, schedule: Schedule, size: nat, chunkSize: nat) {
    /** Where the read at `position` ends. */
    function Next(position: nat): (n: nat)
      requires position <= size
      ensures position <= n <= size && (chunkSize > 0 && position < size ==> position < n)
    {
      position + ReadLength(schedule, size, position, chunkSize)
    }

    /** The number of chunks from `position` on. */
    function Chunks(position: nat): nat
      requires position <= size && chunkSize > 0
      decreases size - position
    {
      if position == size then 0 else 1 + Chunks(Next(position))
    }

    /** The positions the readable is read at, from `position` on: the last read finds it empty. */
    function Positions(position: nat): seq<nat>
      requires position <= size && chunkSize > 0
      decreases size - position
    {
      [position] + if position == size then [] else Positions(Next(position))
    }

    /** The loop with a chunk in hand goes through from here: the next read, the call that sends the
        chunk, and so on. */
    predicate Goes(calls: nat, position: nat)
      requires position <= size && chunkSize > 0
      decreases size - position
    {
      !raises(position) && answers(calls) && (position < size ==> Goes(calls + 1, Next(position)))
    }

    /** The readable never raises, and S3 answers the next `n` calls. */
    ghost predicate NothingFails(calls: nat, n: nat, position: nat)
      requires position <= size && chunkSize > 0
    {
      (forall i :: calls <= i < calls + n ==> answers(i)) && (forall p :: p in Positions(position) ==> !raises(p))
    }

    lemma {:induction false} GoesExactly(calls: nat, position: nat)
      requires position <= size && chunkSize > 0
      ensures Goes(calls, position) <==> NothingFails(calls, Chunks(position) + 1, position)
      decreases size - position
    {
      if position < size {
        GoesExactly(calls + 1, Next(position));
        assert Positions(position) == [position] + Positions(Next(position));
      }
    }

    /** The loop after `n` calls of its own, having read up to `position`. */
    ghost predicate Underway(start: nat, first: nat, position: nat, n: nat, inHand: bool)
      requires start <= size && position <= size && chunkSize > 0
    {
      && (start < size <==> n > 0 || inHand)
      && (start < size ==> (Goes(first, Next(start)) <==> (inHand ==> Goes(first + n, position))))
      && Chunks(start) == n + if inHand then 1 + Chunks(position) else 0
    }

    lemma UnderwayStart(start: nat, first: nat)
      requires start <= size && chunkSize > 0
      ensures Underway(start, first, Next(start), 0, start < size)
    {
    }

    lemma UnderwayStep(start: nat, first: nat, position: nat, n: nat)
      requires start <= size && position <= size && chunkSize > 0 && Underway(start, first, position, n, true)
      ensures !raises(position) && answers(first + n) ==> Underway(start, first, Next(position), n + 1, position < size)
      ensures !(!raises(position) && answers(first + n)) ==> start < size && !Goes(first, Next(start))
    {
    }

    /** An upload just created goes through: the first read, the loop, and the call that completes it. */
    predicate Completes(calls: nat, start: nat)
      requires start <= size && chunkSize > 0
    {
      start < size && !raises(start) && Goes(calls, Next(start)) && answers(calls + Chunks(start))
    }

    /** The loop is through: what is left is the call that completes the upload, if there was a chunk. */
    lemma UnderwayEnd(start: nat, first: nat, position: nat, n: nat)
      requires start <= size && position <= size && chunkSize > 0 && Underway(start, first, position, n, false)
      requires start < size ==> !raises(start) && Goes(first, Next(start))
      ensures Completes(first, start) <==> n > 0 && answers(first + n)
    {
    }

    /** A whole upload: the call that creates it, one for each chunk, and the one that completes it. */
    lemma UploadGoesExactly(calls: nat, start: nat)
      requires start <= size && chunkSize > 0
      ensures answers(calls) && Completes(calls + 1, start) <==> start < size && NothingFails(calls, Chunks(start) + 2, start)
    {
      if start < size {
        GoesExactly(calls + 1, Next(start));
        assert Positions(start) == [start] + Positions(Next(start));
      }
    }
  }

  /** S3 holds every part of the upload. */
  ghost predicate Stored(parts: map<int, bytes>, gcm: Gcm, u: Upload) {
    forall n :: 1 <= n <= |u.parts| ==> n in parts && parts[n] == Ciphertext(gcm, u, n - 1)
  }

  lemma StoreNext(parts: map<int, bytes>, gcm: Gcm, u: Upload, u': Upload)
    requires Stored(parts, gcm, u) && |u'.parts| == |u.parts| + 1
    requires Ciphertexts(gcm, u) <= Ciphertexts(gcm, u')
    ensures Stored(parts[|u'.parts| := Ciphertext(gcm, u', |u.parts|)], gcm, u')
  {
    forall n | 1 <= n <= |u.parts|
      ensures parts[n] == Ciphertext(gcm, u', n - 1)
    {
      assert Ciphertexts(gcm, u)[n - 1] == Ciphertexts(gcm, u')[n - 1];
    }
  }

  /** What the loop knows of its upload: parts 1..n hold the data read so far, except the chunk
      in hand, and are all with S3; the last of them was final when nothing is in hand. */
  ghost predicate Progress(gcm: Gcm, u: Upload, parts: map<int, bytes>, data: bytes, current: bytes, n: nat) {
    && |u.parts| == n
    && data == Concat(u.parts) + current
    && (u.final <==> current == [] && n > 0)
    && Stored(parts, gcm, u)
  }

  lemma UpToPush(n: nat)
    ensures UpTo(n) + [n + 1] == UpTo(n + 1)
  {
  }

  lemma AddRemove<T>(m: map<string, T>, id: string, v: T)
    requires id !in m
    ensures m[id := v] - {id} == m
  {
  }

  predicate Listed(parts: map<int, bytes>, numbers: seq<int>) {
    forall i :: 0 <= i < |numbers| ==> numbers[i] in parts
  }

  function Pick(parts: map<int, bytes>, numbers: seq<int>): seq<bytes>
    requires Listed(parts, numbers)
  {
    seq(|numbers|, i requires 0 <= i < |numbers| => parts[numbers[i]])
  }

  class S3EncryptionClient {
    const s3: S3Service
    const keyring: KmsKeyring
    const prim: Primitives
    const codec: Codec
    const suite: AlgorithmSuite
    var multipartUploads: map<string, MultipartUploadPipeline>

    constructor (s3: S3Service, keyring: KmsKeyring, prim: Primitives, codec: Codec, suite: AlgorithmSuite)
      requires s3.Valid()
      ensures Valid() && this.s3 == s3 && this.keyring == keyring && multipartUploads == map[]
      ensures this.prim == prim && this.codec == codec && this.suite == suite
    {
      this.s3, this.keyring := s3, keyring;
      this.prim, this.codec, this.suite := prim, codec, suite;
      this.multipartUploads := map[];
    }

    /** What the client writes with, for a data key and the random IV or message id. */
    function Prepared(context: Dict, blob: bytes, dataKey: bytes, nonce: bytes): Result<Encryption, KeyError> {
      Prepare(prim, codec, suite, BoundContext(context, suite), dataKey, blob, nonce)
    }

    ghost predicate Valid()
      reads this, s3, multipartUploads.Values
    {
      && s3.Valid()
      && multipartUploads.Keys <= s3.issued
      && (forall id :: id in multipartUploads ==> multipartUploads[id].Valid())
    }

    /** The upload `id` is registered and S3 has it open. */
    ghost predicate Open(id: string)
      reads this, s3
    {
      id in multipartUploads && id in s3.parts && id in s3.headers
    }

    /** Obtain cipher and metadata from the keyring, and register a new pipeline under the id S3
        returns; the client's metadata goes over the user's own. */
    method CreateMultipartUpload(newId: string, context: Dict, user: map<Header, string>,
                                 blob: bytes, dataKey: bytes, nonce: bytes)
      returns (r: Result<string, ClientError>)
      requires Valid() && newId !in s3.issued && blob !in keyring.kms.table
      modifies this, s3, keyring.kms
      ensures Valid() && s3.objects == old(s3.objects)
      ensures r.Ok? <==> old(keyring.kms.NextSucceeds()) && Prepared(context, blob, dataKey, nonce).Ok? && s3.answers(old(s3.calls))
      ensures r.Ok? ==> s3.calls == old(s3.calls) + 1
      ensures r.Err? ==> multipartUploads == old(multipartUploads) && s3.parts == old(s3.parts)
      ensures r.Ok? ==>
                && keyring.kms.table == WithDataKey(old(keyring.kms.table), blob, context, suite, dataKey)
                && r.value == newId && newId !in old(multipartUploads)
                && newId in multipartUploads && multipartUploads == old(multipartUploads)[newId := multipartUploads[newId]]
                && fresh(multipartUploads[newId]) && multipartUploads[newId].upload == NEW
                && Open(newId) && s3.parts[newId] == map[]
                && Prepared(context, blob, dataKey, nonce).Ok?
                && var e := Prepared(context, blob, dataKey, nonce).value;
                && multipartUploads[newId].gcm == e.gcm && s3.headers[newId] == StoredHeaders(codec, user, e.metadata)
    {
      var started := StartPipeline(context, blob, dataKey, nonce);
      if started.Err? {
        return Err(started.error);
      }
      r := Register(newId, started.value, user);
    }

    /** Open an upload at S3 and put its pipeline into the table. */
    method Register(newId: string, pipeline: MultipartUploadPipeline, user: map<Header, string>)
      returns (r: Result<string, ClientError>)
      requires Valid() && newId !in s3.issued && pipeline.Valid()
      modifies this, s3
      ensures Valid() && s3.objects == old(s3.objects)
      ensures s3.calls == old(s3.calls) + 1 && (r.Ok? <==> s3.answers(old(s3.calls)))
      ensures r.Err? ==> multipartUploads == old(multipartUploads) && s3.parts == old(s3.parts)
      ensures r.Ok? ==>
                && r.value == newId && newId !in old(multipartUploads)
                && multipartUploads == old(multipartUploads)[newId := pipeline]
                && Open(newId) && s3.parts[newId] == map[] && s3.headers[newId] == TextHeaders(user) + pipeline.metadata
    {
      var id := s3.CreateMultipartUpload(newId, TextHeaders(user) + pipeline.metadata);
      if id == None {
        return Err(ServiceFailed);
      }
      multipartUploads := multipartUploads[id.value := pipeline];
      return Ok(id.value);
    }

    /** A pipeline for an upload, with the cipher and metadata of a new data key. */
    method StartPipeline(context: Dict, blob: bytes, dataKey: bytes, nonce: bytes)
      returns (r: Result<MultipartUploadPipeline, ClientError>)
      requires blob !in keyring.kms.table
      modifies keyring.kms
      ensures r.Ok? <==> old(keyring.kms.NextSucceeds()) && Prepared(context, blob, dataKey, nonce).Ok?
      ensures r.Ok? ==>
                && keyring.kms.table == WithDataKey(old(keyring.kms.table), blob, context, suite, dataKey)
                && fresh(r.value) && r.value.Valid() && r.value.upload == NEW
                && Prepared(context, blob, dataKey, nonce).Ok?
                && var e := Prepared(context, blob, dataKey, nonce).value;
                && r.value.gcm == e.gcm && r.value.metadata == Dictionary(codec, e.metadata)
    {
      var obtained := Obtain(keyring, prim, codec, suite, context, blob, dataKey, nonce);
      if obtained.Err? {
        return Err(NotObtained(obtained.error));
      }
      var metadata := ToDict(codec, obtained.value.metadata);
      var pipeline := new MultipartUploadPipeline(obtained.value.gcm, metadata);
      return Ok(pipeline);
    }

    /** Encrypt a part and send it. A part that S3 refused stays encrypted, ready for a retry. */
    method UploadPart(id: string, number: int, body: bytes, isLast: bool) returns (r: Result<(), ClientError>)
      requires Valid()
      modifies s3, if id in multipartUploads then {multipartUploads[id]} else {}
      ensures Valid() && s3.objects == old(s3.objects) && s3.headers == old(s3.headers) && s3.issued == old(s3.issued)
      ensures id !in multipartUploads ==> r == Err(NoSuchUpload) && s3.parts == old(s3.parts) && s3.calls == old(s3.calls)
      ensures id in multipartUploads ==>
                var p := multipartUploads[id];
                var (upload, e) := Submit(p.gcm, old(p.upload), number, body, isLast);
                && p.upload == upload
                && (e.Err? ==> r == Err(PartRejected(e.error)) && s3.calls == old(s3.calls))
                && (e.Ok? ==> s3.calls == old(s3.calls) + 1)
                && (e.Ok? ==> r == (if s3.answers(old(s3.calls)) && e.value.Some? && id in old(s3.parts)
                                    then Ok(()) else Err(ServiceFailed)))
                && (r.Ok? ==> e.value.Some? && id in old(s3.parts)
                              && s3.parts == old(s3.parts)[id := old(s3.parts)[id][number := e.value.value]])
                && (r.Err? ==> s3.parts == old(s3.parts))
    {
      if id !in multipartUploads {
        return Err(NoSuchUpload);
      }
      var pipeline := multipartUploads[id];
      var ciphertext := pipeline.EncryptPart(number, body, isLast);
      if ciphertext.Err? {
        return Err(PartRejected(ciphertext.error));
      }
      var ok := s3.UploadPart(id, number, ciphertext.value);
      return if ok then Ok(()) else Err(ServiceFailed);
    }

    /** Complete an upload whose final part was encrypted, and forget it once S3 has completed. */
    method CompleteMultipartUpload(id: string, key: string, numbers: seq<int>) returns (r: Result<(), ClientError>)
      requires Valid()
      modifies this, s3
      ensures Valid()
      ensures r.Ok? ==>
                && id in old(multipartUploads) && old(multipartUploads[id].upload.final)
                && multipartUploads == old(multipartUploads) - {id}
                && id in old(s3.parts) && Listed(old(s3.parts)[id], numbers)
                && s3.objects == old(s3.objects)[key := StoredObject(old(s3.headers)[id], Concat(Pick(old(s3.parts)[id], numbers)))]
      ensures r.Err? ==> multipartUploads == old(multipartUploads) && s3.objects == old(s3.objects)
      ensures id !in old(multipartUploads) ==> r == Err(NoSuchUpload) && s3.calls == old(s3.calls) && s3.parts == old(s3.parts)
      ensures id in old(multipartUploads) && !old(multipartUploads[id].upload.final) ==>
                r == Err(FinalPartMissing) && s3.calls == old(s3.calls) && s3.parts == old(s3.parts)
      ensures id in old(multipartUploads) && old(multipartUploads[id].upload.final) ==>
                && s3.calls == old(s3.calls) + 1
                && r == (if s3.answers(old(s3.calls)) && id in old(s3.parts) && Listed(old(s3.parts)[id], numbers)
                         then Ok(()) else Err(ServiceFailed))
                && s3.parts == if r.Ok? then old(s3.parts) - {id} else old(s3.parts)
    {
      if id !in multipartUploads {
        return Err(NoSuchUpload);
      }
      if !multipartUploads[id].hasFinalPartBeenSeen {
        return Err(FinalPartMissing);
      }
      var ok := s3.CompleteMultipartUpload(id, key, numbers);
      if !ok {
        return Err(ServiceFailed);
      }
      multipartUploads := multipartUploads - {id};
      return Ok(());
    }

    /** Forget an upload, whether or not S3, which is then asked to abort it, manages to. */
    method AbortMultipartUpload(id: string) returns (r: Result<(), ClientError>)
      requires Valid()
      modifies this, s3
      ensures Valid() && s3.objects == old(s3.objects)
      ensures multipartUploads == old(multipartUploads) - {id}
      ensures s3.calls == old(s3.calls) + 1 && r == (if s3.answers(old(s3.calls)) then Ok(()) else Err(ServiceFailed))
      ensures s3.parts == if r.Ok? then old(s3.parts) - {id} else old(s3.parts)
    {
      multipartUploads := multipartUploads - {id};
      var ok := s3.AbortMultipartUpload(id);
      return if ok then Ok(()) else Err(ServiceFailed);
    }

    /** Upload everything a readable still holds, in parts of what it returns for `chunkSize`.
        It succeeds exactly when the readable is not empty and no call that it makes, to KMS, to S3 or
        to the readable, fails. On every exit the client's table is what it was; a successful upload
        stored one GCM encryption of exactly the readable's remaining data, and after a failure S3
        still has the upload open only if it refused to abort it. */
    method MultipartUploadFromReadable(readable: Reader, raises: nat -> bool, key: string, chunkSize: nat, newId: string,
                                       context: Dict, user: map<Header, string>, blob: bytes, dataKey: bytes, nonce: bytes)
      returns (r: Result<(), ClientError>)
      requires Valid() && newId !in s3.issued && blob !in keyring.kms.table && chunkSize > 0
      requires readable.Valid()
      modifies this, s3, keyring.kms, readable
      ensures Valid() && multipartUploads == old(multipartUploads)
      ensures var c, start := Met(readable, raises, chunkSize), old(readable.position);
              r.Ok? <==>
                && old(keyring.kms.NextSucceeds()) && Prepared(context, blob, dataKey, nonce).Ok?
                && start < c.size && c.NothingFails(old(s3.calls), c.Chunks(start) + 2, start)
      ensures r.Err? && newId in s3.parts ==> s3.calls > 0 && !s3.answers(s3.calls - 1)
      ensures r.Ok? ==>
                && keyring.kms.table == WithDataKey(old(keyring.kms.table), blob, context, suite, dataKey)
                && Prepared(context, blob, dataKey, nonce).Ok?
                && var e := Prepared(context, blob, dataKey, nonce).value;
                && s3.objects == old(s3.objects)[key := StoredObject(StoredHeaders(codec, user, e.metadata),
                                                                     e.gcm.Seal(readable.data[old(readable.position)..]))]
      ensures r.Err? ==> s3.objects == old(s3.objects)
      ensures old(readable.position) == |readable.data| ==> r.Err?
    {
      Met(readable, raises, chunkSize).UploadGoesExactly(s3.calls, readable.position);
      var created := CreateMultipartUpload(newId, context, user, blob, dataKey, nonce);
      if created.Err? {
        return Err(created.error);
      }
      AddRemove(old(multipartUploads), newId, multipartUploads[newId]);
      r := UploadOrAbort(readable, raises, key, chunkSize, newId);
    }

    /** Upload everything under an id just created, and abort on failure: the id is gone either way. */
    method UploadOrAbort(readable: Reader, raises: nat -> bool, key: string, chunkSize: nat, id: string)
      returns (r: Result<(), ClientError>)
      requires Valid() && Open(id) && multipartUploads[id].upload == NEW && chunkSize > 0
      requires readable.Valid()
      modifies this, s3, readable, multipartUploads[id]
      ensures Valid() && multipartUploads == old(multipartUploads) - {id}
      ensures r.Ok? ==>
                s3.objects == old(s3.objects)[key :=
                  StoredObject(old(s3.headers)[id], old(multipartUploads[id]).gcm.Seal(readable.data[old(readable.position)..]))]
      ensures r.Err? ==> s3.objects == old(s3.objects)
      ensures r.Err? && id in s3.parts ==> s3.calls > 0 && !s3.answers(s3.calls - 1)
      ensures r.Ok? <==> Met(readable, raises, chunkSize).Completes(old(s3.calls), old(readable.position))
    {
      r := UploadChunks(readable, raises, key, chunkSize, id);
      if r.Err? {
        var _ := AbortMultipartUpload(id);
      }
    }

    /** What an upload from this readable meets. */
    function Met(readable: Reader, raises: nat -> bool, chunkSize: nat): Conditions {
      Conditions(s3.answers, raises, readable.schedule, |readable.data|, chunkSize)
    }

    /** Upload the chunk in hand as part n + 1, knowing the chunk read after it. */
    method UploadChunk(id: string, ghost data: bytes, current: Chunk, n: nat, next: bytes) returns (r: Result<(), ClientError>)
      requires Valid() && Open(id)
      requires Progress(multipartUploads[id].gcm, multipartUploads[id].upload, s3.parts[id], data, current, n)
      modifies s3, multipartUploads[id]
      ensures Valid() && Open(id) && s3.objects == old(s3.objects) && s3.headers == old(s3.headers)
      ensures (r.Ok? <==> s3.answers(old(s3.calls))) && s3.calls == old(s3.calls) + 1
      ensures r.Ok? ==> Progress(multipartUploads[id].gcm, multipartUploads[id].upload, s3.parts[id], data + next, next, n + 1)
    {
      ghost var p := multipartUploads[id];
      ghost var upload, parts := p.upload, s3.parts[id];
      r := UploadPart(id, n + 1, current, next == []);
      SubmitExtends(p.gcm, upload, n + 1, current, next == []);
      ConcatPush([], upload.parts, current);
      if r.Ok? {
        StoreNext(parts, p.gcm, upload, p.upload);
      }
    }

    /** Complete an upload whose parts are all with S3. */
    method CompleteUpload(id: string, key: string, ghost data: bytes, numbers: seq<int>) returns (r: Result<(), ClientError>)
      requires Valid() && Open(id)
      requires Progress(multipartUploads[id].gcm, multipartUploads[id].upload, s3.parts[id], data, [], |numbers|)
      requires numbers == UpTo(|numbers|)
      modifies this, s3
      ensures Valid()
      ensures r.Ok? ==>
                && multipartUploads == old(multipartUploads) - {id}
                && s3.objects == old(s3.objects)[key := StoredObject(old(s3.headers)[id], old(multipartUploads[id]).gcm.Seal(data))]
      ensures r.Err? ==> multipartUploads == old(multipartUploads) && s3.objects == old(s3.objects)
      ensures r.Ok? <==> numbers != [] && s3.answers(old(s3.calls))
    {
      ghost var gcm, upload, parts := multipartUploads[id].gcm, multipartUploads[id].upload, s3.parts[id];
      r := CompleteMultipartUpload(id, key, numbers);
      if r.Ok? {
        assert Pick(parts, numbers) == Ciphertexts(gcm, upload)[..|numbers|];
        CiphertextsAreOneEncryption(gcm, upload, |numbers|);
        assert data == Concat(upload.parts);
      }
    }

    /** The loop's invariant: what was read since `start` is with S3 in parts 1..n, except the
        chunk in hand, which is empty only at the end of the readable. */
    ghost predicate Sending(id: string, readable: Reader, start: nat, current: bytes, n: nat)
      reads this, s3, readable, multipartUploads.Values
    {
      && Valid() && Open(id) && readable.Valid() && start <= readable.position
      && Progress(multipartUploads[id].gcm, multipartUploads[id].upload, s3.parts[id],
                  readable.data[start..readable.position], current, n)
      && (current == [] ==> readable.position == |readable.data|)
    }

    /** One round of the loop: read ahead, upload the chunk in hand, and hand over the next one. */
    method UploadNext(readable: Reader, raises: nat -> bool, id: string, ghost start: nat, current: Chunk, chunkSize: nat, n: nat)
      returns (r: Result<bytes, ClientError>)
      requires Sending(id, readable, start, current, n) && chunkSize > 0
      modifies s3, readable, multipartUploads[id]
      ensures Valid() && s3.objects == old(s3.objects) && s3.headers == old(s3.headers)
      ensures r.Ok? ==>
                && Sending(id, readable, start, r.value, n + 1)
                && (r.value != [] ==> old(readable.position) < readable.position)
      ensures r.Ok? <==> !raises(old(readable.position)) && s3.answers(old(s3.calls))
      ensures var c := Met(readable, raises, chunkSize);
              r.Ok? ==>
                && s3.calls == old(s3.calls) + 1 && readable.position == c.Next(old(readable.position))
                && (r.value == [] <==> old(readable.position) == |readable.data|)
    {
      if raises(readable.position) {
        return Err(SourceFailed);
      }
      ghost var data := readable.data[start..readable.position];
      var nextChunk := readable.Read(chunkSize);
      assert readable.data[start..readable.position] == data + nextChunk;
      var sent := UploadChunk(id, data, current, n, nextChunk);
      return if sent.Err? then Err(sent.error) else Ok(nextChunk);
    }

    /** The same, with what is left of the upload's conditions. */
    ghost predicate Looping(id: string, readable: Reader, raises: nat -> bool, start: nat, first: nat,
                            current: bytes, chunkSize: nat, n: nat)
      reads this, s3, readable, multipartUploads.Values
    {
      && chunkSize > 0 && Sending(id, readable, start, current, n) && s3.calls == first + n
      && Met(readable, raises, chunkSize).Underway(start, first, readable.position, n, current != [])
    }

    method ReadFirst(readable: Reader, raises: nat -> bool, chunkSize: nat, id: string) returns (r: Result<bytes, ClientError>)
      requires Valid() && Open(id) && multipartUploads[id].upload == NEW && chunkSize > 0
      requires readable.Valid()
      modifies readable
      ensures Valid()
      ensures r.Ok? <==> !raises(old(readable.position))
      ensures r.Ok? ==> Looping(id, readable, raises, old(readable.position), s3.calls, r.value, chunkSize, 0)
    {
      if raises(readable.position) {
        return Err(SourceFailed);
      }
      ghost var start := readable.position;
      Met(readable, raises, chunkSize).UnderwayStart(start, s3.calls);
      var chunk := readable.Read(chunkSize);
      assert [] + chunk == readable.data[start..readable.position];
      return Ok(chunk);
    }

    method SendOne(readable: Reader, raises: nat -> bool, id: string, ghost start: nat, ghost first: nat,
                   current: Chunk, chunkSize: nat, n: nat)
      returns (r: Result<bytes, ClientError>)
      requires Looping(id, readable, raises, start, first, current, chunkSize, n)
      modifies s3, readable, multipartUploads[id]
      ensures Valid() && s3.objects == old(s3.objects) && s3.headers == old(s3.headers)
      ensures r.Ok? ==>
                && Looping(id, readable, raises, start, first, r.value, chunkSize, n + 1)
                && (r.value != [] ==> old(readable.position) < readable.position)
      ensures r.Err? ==>
                var c := Met(readable, raises, chunkSize); start < c.size && !c.Goes(first, c.Next(start))
    {
      ghost var position := readable.position;
      r := UploadNext(readable, raises, id, start, current, chunkSize, n);
      Met(readable, raises, chunkSize).UnderwayStep(start, first, position, n);
    }

    /** The read-ahead loop: a chunk is the last one when the read after it comes back empty.
        Returns the numbers of the parts sent. */
    method SendChunks(readable: Reader, raises: nat -> bool, chunkSize: nat, id: string) returns (r: Result<seq<int>, ClientError>)
      requires Valid() && Open(id) && multipartUploads[id].upload == NEW && chunkSize > 0
      requires readable.Valid()
      modifies s3, readable, multipartUploads[id]
      ensures Valid() && s3.objects == old(s3.objects) && s3.headers == old(s3.headers)
      ensures r.Ok? ==>
                && r.value == UpTo(|r.value|)
                && Looping(id, readable, raises, old(readable.position), old(s3.calls), [], chunkSize, |r.value|)
      ensures var c, start := Met(readable, raises, chunkSize), old(readable.position);
              r.Ok? <==> !raises(start) && (start < c.size ==> c.Goes(old(s3.calls), c.Next(start)))
    {
      ghost var start, calls := readable.position, s3.calls;
      var numbers: seq<int> := [];
      var first := ReadFirst(readable, raises, chunkSize, id);
      if first.Err? {
        return Err(first.error);
      }
      var currentChunk := first.value;
      while currentChunk != []
        invariant Looping(id, readable, raises, start, calls, currentChunk, chunkSize, |numbers|)
        invariant s3.objects == old(s3.objects) && s3.headers == old(s3.headers)
        invariant numbers == UpTo(|numbers|)
        decreases |readable.data| - readable.position, |currentChunk|
      {
        var next := SendOne(readable, raises, id, start, calls, currentChunk, chunkSize, |numbers|);
        if next.Err? {
          return Err(next.error);
        }
        UpToPush(|numbers|);
        numbers := numbers + [|numbers| + 1];
        currentChunk := next.value;
      }
      return Ok(numbers);
    }

    method UploadChunks(readable: Reader, raises: nat -> bool, key: string, chunkSize: nat, id: string)
      returns (r: Result<(), ClientError>)
      requires Valid() && Open(id) && multipartUploads[id].upload == NEW && chunkSize > 0
      requires readable.Valid()
      modifies this, s3, readable, multipartUploads[id]
      ensures Valid()
      ensures r.Ok? ==>
                && multipartUploads == old(multipartUploads) - {id}
                && s3.objects == old(s3.objects)[key :=
                     StoredObject(old(s3.headers)[id], old(multipartUploads[id]).gcm.Seal(readable.data[old(readable.position)..]))]
      ensures r.Err? ==> multipartUploads == old(multipartUploads) && s3.objects == old(s3.objects)
      ensures r.Ok? <==> Met(readable, raises, chunkSize).Completes(old(s3.calls), old(readable.position))
    {
      ghost var start, calls := readable.position, s3.calls;
      var sent := SendChunks(readable, raises, chunkSize, id);
      if sent.Err? {
        return Err(sent.error);
      }
      Met(readable, raises, chunkSize).UnderwayEnd(start, calls, readable.position, |sent.value|);
      assert readable.data[start..readable.position] == readable.data[start..];
      r := CompleteUpload(id, key, readable.data[start..], sent.value);
    }
  }
}
