# Verified model of the Amazon S3 Encryption Client for Python

The client encrypts objects before they are stored in S3 and decrypts them when they are read.
This project models its hard core in Dafny and proves that the pieces do what they promise,
alone and together:

- **Decrypting while reading.** `AesGcm` and `AesCbc` are the two ciphers; the block cipher, GHASH
  and HMAC are uninterpreted functions, so every result holds for any of them, while xor, chaining
  and padding are defined and their round trips proved. `Decryptors` has the client's two decryptors
  as classes: AES-GCM with its rolling 16-byte tail, AES-CBC with a block-buffering cipher and a
  hold-back unpadder. Both are proved against `CipherSpec`, which never mentions a chunk. `Stream` is
  the `read` loop over a body with arbitrary short reads, `StreamRuns` states what holds of every
  sequence of reads, and `Lines` is line iteration over chunks.
- **Encrypting in parts.** `Multipart` is the pipeline of one upload: sequence check, retry cache and
  final flag, as a class and as the statements of its locked section. `Client` is the upload table
  with create, upload, complete and abort, and the look-ahead loop that uploads a readable.
  `ConcurrentUploads` is a step model of any number of threads and uploads, in which other threads
  may act between any two statements of a locked section; `UploadLifetimes` is about how uploads end.
- **Deciding whether and how to decrypt.** `Metadata`, `Materials`, `Kms` and `GetPipeline` are the
  object metadata and its serialisation, the algorithm suites with key derivation, the KMS keyring,
  and the chain of checks from S3 headers (and an instruction file) to a cipher or an error.
  `InstructionFiles` states what that means for envelopes stored in an instruction file's text.
- **Putting it together.** `PutPipeline`, `RoundTrip` and `EndToEnd` compose writing and reading.
- **Request state.** `RequestContext` is the thread's request attributes and the flag around the
  re-entrant instruction-file fetch.
- **Test servers.** `ClientCache` is the LRU cache of encryption clients, `MetadataText` the
  `[key]:[value]` printer and parser.

Classes whose methods update fields are Dafny classes; their contracts tie the new state to
functions of the old one, and the theorems are about those functions. Chains of checks, tables and
predicates are functions. Errors are values of `Result`; message texts are not modelled. What can fail
outside the client while it writes or fetches (calls to KMS and S3, a readable that raises, short reads)
follows schedules that the theorems take as given, so that success is characterised exactly: nothing
fails without a cause.

Where a result is about bytes, it is stated down to single bytes of the uninterpreted primitives, and
header names, context keys, suite names and labels appear as the literal text.

Main results, in words:

1. Streaming refines one-shot decryption, for both ciphers, every read size other than 0 and every
   pattern of short reads: same plaintext, or the same one error, after at most one read per byte and
   one more (`StreamRuns.StreamingRefinesOneShot`, `StreamRuns.FinishedRunOutcome`). The step relation
   these runs are made of allows exactly what `read` can do (`StreamRuns.ReadStepsAreReads`).
2. Every ciphertext ever handed out for a part, first time or retry, is that part's slice of one
   AES-GCM encryption (`Multipart.RunHandsOutOneEncryption`, `Multipart.CiphertextsAreOneEncryption`);
   byte by byte, it is the plaintext xored with the keystream from where the part starts
   (`Multipart.HandedOutBytes`), and no keystream position is ever used twice
   (`Multipart.KeystreamNotReused`). Under any
   interleaving of threads an object completed from all parts of its upload decrypts to the accepted
   plaintext, the final flag is right whenever it is read without the lock, also in the middle of an encryption,
   and uploads do not affect each other (`ConcurrentUploads`); completed and aborted uploads stay as
   they are for ever (`UploadLifetimes.EndedForEver`).
3. An object is accepted only with matching format and suite, a verified commitment under V3, and
   its own data key; under kms+context also only with the suite and context that key was generated
   for. The legacy wrapping binds neither: for a given data key, every accepted object has its suite
   and context **if and only if** legacy wrapping is off, or cannot be used, or would use that very
   suite and context anyway (`GetPipeline.BlobIsBoundExactly`).
4. Every valid configuration reads back its own writes **if and only if** the user's own metadata
   uses no clashing client header and the request context is the original one without the reserved
   keys (`RoundTrip.ReadsBackExactly`); from the data key on, put and read back, and upload of a
   readable and read back, give the same bytes, and the write succeeds exactly when nothing it calls
   fails and the readable is not empty (`EndToEnd.PutAndReadBack`, `EndToEnd.UploadAndReadBack`).
5. An object whose V1, V2 or V3 envelope is in the body of an instruction file is accepted exactly
   under the stated configurations, requests and commitment, with that data key and IV
   (`InstructionFiles.EnvelopeV1IsRead`, `EnvelopeV2IsRead`, `EnvelopeV3IsRead`).
6. Lines are exactly what lies between line breaks (`Lines.LinesEndAtBreaks`,
   `Lines.LinesWithoutTerminators`), however the stream is read (`Lines.LinesOfStream`).

Some properties one might expect do not hold of the code; the exact condition is proved instead:
a put and get under the same context fails when that context uses a reserved key
(`RoundTrip.PutThenGet`); `read(0)` raises exactly on an unfinished stream
(`StreamRuns.ZeroSizedReadFails`); `read()` reads everything exactly when nothing more could come out
before the last byte is in (`StreamRuns.UnsizedReadFinishesExactly`); a read returns the size asked for
exactly when that is one unit of the cipher or the stream cannot but finish
(`StreamRuns.SizeIsExactExactly`); an upload completed with parts left out decrypts exactly when those
were empty and not the last (`ConcurrentUploads.CompletedObjectDecryptsExactly`,
`ConcurrentUploads.PartsCanBeLeftOut`); part number 0 before any part gets neither a ciphertext nor an
error (`Multipart.NoCiphertextExactly`); reading metadata back is the identity only on fields that need no
normalising (`Metadata.WriteReadNormalizes`); the text form of a hash is read back only without commas
and separators in it (`MetadataText.PrintParse`).

Where the code and its documentation differ, the model follows the code:

- `read()` is documented to read everything, but returns after the first plaintext a short-reading
  body gives (src/s3_encryption/stream.py:66, 79-106). On a new stream it is sure to read everything
  only for bodies of up to 17 bytes (AES-GCM) or 32 bytes (CBC) (`StreamRuns.UnsizedFirstRead`); over
  a body that gives full reads, and is no shorter than announced, it always does
  (`Stream.DecryptingStream.Read`).
- `iter_chunks` is documented to yield chunks of `chunk_size` bytes (src/s3_encryption/stream.py:160).
  Chunks before the end are sure to have that size exactly when it is 1 (AES-GCM) or 16 (CBC), or the
  first read already finishes (`StreamRuns.SizeIsExactExactly`, `StreamRuns.FirstSizeIsExact`).
  Otherwise they can be shorter long before the end (`StreamRuns.ReadCanStopShort`), and for CBC
  longer, by up to 30 bytes (`StreamRuns.ReadsAreBounded`, `StreamRuns.CbcReadOvershoots`,
  `StreamRuns.OvershootIsReached`).
- The V1 and V2 predicates are documented to exclude V3 keys, but do not look at them
  (src/s3_encryption/metadata.py:175-200). The checks that follow reject a second data key in any
  format and V3 content keys in V2 only (src/s3_encryption/pipelines.py:462-481). So accepted objects
  with a V3 content key are all V3 exactly when legacy modes are off, the policy is the strictest, or
  no data key can be had for CBC (`GetPipeline.ContentKeysMeanV3Exactly`,
  `GetPipeline.ContentKeysMeanV3ByConfig`, `GetPipeline.V1WithContentKeyIsAccepted`).

## Model

| member | source | states |
|---|---|---|
| AesGcm.Gcm.MaskConcat | src/s3_encryption/decryptor.py:123 | Feeding the cipher two pieces one after the other gives what feeding it their concatenation gives, at any keystream position. |
| AesGcm.Gcm.OpenExactlySealed | src/s3_encryption/decryptor.py:125-144 | One-shot decryption returns a plaintext exactly for the bytes encryption makes of it: ciphertext and its tag. |
| AesGcm.Gcm.SealBytes | src/s3_encryption/pipelines.py:100 | Byte i of the ciphertext is byte i of the plaintext xored with byte i of the keystream, and the 16 bytes that follow are the tag over the whole ciphertext. |
| AesCbc.Cbc.DecryptConcat | src/s3_encryption/decryptor.py:62-66 | CBC decryption of two runs of whole blocks is that of their concatenation, the second chained from the last block of the first. |
| AesCbc.Cbc.DecryptBytes | src/s3_encryption/pipelines.py:597-600 | Byte i of block j of the plaintext is byte i of the inverse cipher of block j, xored with byte i of the IV for the first block and of block j - 1 of the ciphertext for the others. |
| AesCbc.Cbc.OpenEncrypted | src/s3_encryption/pipelines.py:597-604 | When the block functions are inverses, decrypting and unpadding gives back every plaintext padded with PKCS7 and encrypted with CBC. |
| AesCbc.UnpadPad | src/s3_encryption/pipelines.py:601-602 | Unpadding undoes PKCS7 padding for every length. |
| AesCbc.UnpadRejectsExactly | src/s3_encryption/pipelines.py:601-602 | Unpadding rejects exactly what is not a positive number of whole blocks ending in n bytes of value n with n from 1 to 16. |
| AesCbc.UnpadExactly | src/s3_encryption/pipelines.py:601-602 | Unpadding gives a plaintext exactly for the one padded string made of it. |
| AesCbc.Cbc.OpenExactly | src/s3_encryption/decryptor.py:68-79 | A body of whole blocks opens to a plaintext exactly when it deciphers to that plaintext padded with PKCS7, and no other body opens to any. |
| Decryptors.CipherSpec.ReleasedIsPrefix | src/s3_encryption/decryptor.py:111-123 | What may be out early only grows as more ciphertext arrives, and is a prefix of the final plaintext when there is one, for both ciphers. |
| Decryptors.CipherSpec.HoldsBackAtMost | src/s3_encryption/decryptor.py:111-123 | At most 16 (AES-GCM) or 31 (CBC) bytes can be in without anything more coming out, and one byte more than that always releases something. |
| Decryptors.CbcContext.UpdateHolds | src/s3_encryption/decryptor.py:65 | The block-buffering cipher context has, after any chunk, deciphered exactly the whole blocks fed so far and buffers the rest. |
| Decryptors.UnpadContext.UpdateHolds | src/s3_encryption/decryptor.py:66 | The unpadder has released all but the last whole block and what follows it, however the data was cut. |
| Decryptors.UnpadContext.FinalizeUnpads | src/s3_encryption/decryptor.py:74 | Finalising the unpadder completes what it released to the unpadded whole, and fails exactly when unpadding the whole fails. |
| Decryptors.GcmUpdates | src/s3_encryption/decryptor.py:117-123 | However a chunk meets the tail, what passes to the cipher is the rest of everything fed but its last 16 bytes, and its plaintext is exactly what is newly released. |
| Decryptors.CbcUpdates | src/s3_encryption/decryptor.py:64-66 | One chunk through cipher and unpadder keeps both in step with everything fed, and what comes out is exactly what is newly released. |
| Decryptors.AesGcmDecryptor.Update | src/s3_encryption/decryptor.py:111-123 | Any chunk goes in and exactly the newly released plaintext comes out; the last 16 bytes so far stay out of the cipher, and no more comes out than went in. |
| Decryptors.AesGcmDecryptor.Finalize | src/s3_encryption/decryptor.py:125-144 | With the last chunk the output so far becomes the one-shot plaintext, or the one-shot error (too short, bad tag) is raised; the last 16 bytes never reach the cipher. |
| Decryptors.AesCbcDecryptor.Update | src/s3_encryption/decryptor.py:62-66 | Any chunk goes in and exactly the newly released plaintext comes out. |
| Decryptors.AesCbcDecryptor.Finalize | src/s3_encryption/decryptor.py:68-79 | With the last chunk the output so far becomes the one-shot plaintext; fails exactly when decrypting and unpadding the whole fails, always with the same error. |
| Decryptors.AesCbcDecryptor.Flush | src/s3_encryption/decryptor.py:74 | The last unpadder update and its finalize together unpad everything the cipher produced. |
| Stream.DecryptingStream.Read | src/s3_encryption/stream.py:62-106 | One read, over any short reads, is a step of the chunk-free specification: it finishes the stream or returns something non-empty that continues the plaintext; it takes in at most `amt` bytes more than can be held back, and returns at most `amt` bytes (AES-GCM) or `amt` + 30 (CBC); a finished stream returns nothing for ever; an unsized read over full reads of a body no shorter than announced finishes. Under a given schedule of short reads the result is that of the function `ReadWith`. Terminates. |
| Stream.DecryptingStream.ReadRound | src/s3_encryption/stream.py:80-105 | One round of the loop does what the chunk-free `RoundWith` says under the body's schedule of short reads: new ciphertext in and exactly what it releases out, or the one-shot outcome. |
| Stream.DecryptingStream.NextChunk | src/s3_encryption/stream.py:81-97 | The chunk ends where size, announced length and the body's schedule put it, and is the last exactly when nothing came or the announced length is reached. |
| Stream.DecryptingStream.Finalize | src/s3_encryption/stream.py:108-115 | Marks the stream finished and gives the one-shot outcome of everything consumed, then an error if that is not the announced number of bytes. |
| Stream.RoundWithIsRound | src/s3_encryption/stream.py:80-105 | Under every schedule of short reads a round is one of those the schedule-free `Round` allows. |
| Stream.RoundsMerge | src/s3_encryption/stream.py:74-80 | A round that released nothing can be merged into the next: looping hides it from the caller. |
| Stream.RoundWithinSize | src/s3_encryption/stream.py:87-105 | What a round may take in bounds what it returns: at most `amt` bytes for AES-GCM and `amt` + 30 for CBC, also when it finishes. |
| Stream.ReadStepConsistent | src/s3_encryption/stream.py:71-115 | Every read keeps: consumed within both lengths, output what early release allows, and once finished the outcome of one-shot decryption and the length check. |
| Stream.DecryptingStream.IterChunks | src/s3_encryption/stream.py:159-165 | The non-empty chunks yielded add up to what was delivered, none is longer than `chunk_size` (AES-GCM) or `chunk_size` + 30 (CBC), all but the last have exactly `chunk_size` when that is 1 (AES-GCM) or 16 (CBC), the stream is finished afterwards, and the iteration's error is the stream's. |
| Stream.DecryptingStream.Drain | src/s3_encryption/stream.py:159-165 | Draining a new stream gives, for every positive size, the one-shot result of the announced bytes, or the error of the length check when the body is shorter. |
| Stream.DecryptingStream.ReadInto | src/s3_encryption/stream.py:117-126 | The start of the buffer becomes what one read of its size returned and the rest stays; a GCM result always fits, a CBC result exceeds the buffer by at most 30 bytes; an error leaves the buffer alone. |
| Stream.OneShotDecrypt | src/s3_encryption/buffered_decrypt.py:12-20 | Buffered mode gives the chunk-free decryption of the whole body. |
| StreamRuns.RunInvariant | src/s3_encryption/stream.py:62-115 | Over every run of reads: at most one error, everything delivered accounted for, and every unfinished read consumed at least a byte. |
| StreamRuns.FinishedRunOutcome | src/s3_encryption/stream.py:167-175 | For any body, announced length and sizes: no error exactly when the announced bytes were all consumed and decrypt, and then the plaintext was delivered; otherwise one error, of decryption or of the length check. |
| StreamRuns.StreamingRefinesOneShot | src/s3_encryption/stream.py:62-115 | Every run with sizes other than 0 delivers a prefix of the one-shot plaintext and all of it once finished, or ends in the same error; it is finished after at most one read per byte and one more. |
| StreamRuns.EmptyReadMeansFinished | src/s3_encryption/stream.py:74-78 | A read that returns empty without an error means the stream is finished. |
| StreamRuns.ZeroSizedReadFails | src/s3_encryption/stream.py:87-92 | After any run, read(0) leaves the stream finished, and raises exactly when it was unfinished, whatever length was announced. |
| StreamRuns.UnsizedReadFinishesExactly | src/s3_encryption/stream.py:79-106 | From any unfinished state, for both ciphers, any body and announced length: read() finishes under every short read exactly when no more plaintext could be released before the last announced byte is in, a condition on lengths. |
| StreamRuns.UnsizedFirstRead | src/s3_encryption/stream.py:79-106 | On a new stream read() is sure to finish exactly for bodies of up to 17 bytes (AES-GCM) or 32 bytes (CBC). |
| StreamRuns.SizeIsExactExactly | src/s3_encryption/stream.py:79-106 | From any unfinished state, for both ciphers, any body, announced length and positive size: every read that does not finish returns exactly that size, under every short read, exactly when the size is one unit (1 or 16) or no more plaintext could be released before the last announced byte. |
| StreamRuns.FirstSizeIsExact | src/s3_encryption/stream.py:79-106 | On a new stream: exactly for that size, or bodies of up to 17 (AES-GCM) or 32 (CBC) bytes. |
| StreamRuns.ReadStepsAreReads | src/s3_encryption/stream.py:62-106 | From any consistent state, the step relation holds exactly of what `read` does under some schedule of short reads. |
| StreamRuns.ReadAgain | src/s3_encryption/stream.py:62-106 | Any sequence of reads of a new stream is a run in the sense of the theorems about runs. |
| StreamRuns.ReadCanStopShort | src/s3_encryption/stream.py:87-106 | Over any GCM body longer than 17 bytes a short first read makes read() or read(n) return one byte and leave the stream unfinished. |
| StreamRuns.CbcReadOvershoots | src/s3_encryption/stream.py:102-106 | Over any CBC body longer than two blocks the first read(1) always returns 16 bytes. |
| StreamRuns.OvershootIsReached | src/s3_encryption/stream.py:97-100 | When one byte of three CBC blocks is left and one byte of padding, read(1) returns 31 bytes: the bound is exact. |
| StreamRuns.ReadsAreBounded | src/s3_encryption/stream.py:62-106 | In every run no read of size n returns more than n bytes over AES-GCM, or n + 30 over CBC. |
| Lines.AppendLines | src/s3_encryption/stream.py:152 | More data only affects the last line so far, also when it turns a CR into a CR LF. |
| Lines.LineAlone | src/s3_encryption/stream.py:154 | A line split on its own is itself, with or without its terminator as the mode says. |
| Lines.NextLines | src/s3_encryption/stream.py:151-155 | Splitting the pending line together with the next chunk yields the next complete lines and the new pending one. |
| Lines.IterLines | src/s3_encryption/stream.py:144-157 | However the data is cut into chunks, exactly the lines of the whole come out; when the chunks end in an error, all but the last. |
| Lines.LinesOfStream | src/s3_encryption/stream.py:144-165 | The lines of a new stream are exactly those of the plaintext of the announced bytes, for every chunk size, announced length and any short reads; on failure of decryption or the length check all but the last line of a prefix of what may be released, and that error. |
| Lines.LinesConcat | src/s3_encryption/stream.py:152 | Splitting with terminators kept loses nothing. |
| Lines.LinesEndAtBreaks | src/s3_encryption/stream.py:144-157 | With terminators kept, every line but the last ends at a line break of the whole (an LF, or a CR with no LF after it), the last ends where the data does, and no line has a break inside. |
| Lines.LinesWithoutTerminators | src/s3_encryption/stream.py:144-157 | Without terminators there are as many lines, none holds an LF or a CR, and each is the kept line without LF, CR LF or CR, or, for the last one, without any. |
| Multipart.MultipartUploadPipeline.EncryptPart | src/s3_encryption/pipelines.py:268-308 | A call runs the statements of the locked section in order, and does to cipher, counter, flag and cache what the pure `Submit` does to the list of accepted parts, with the same result. |
| Multipart.SectionStepKeeps | src/s3_encryption/pipelines.py:282-308 | After every single statement of the section the fields are in order for where the call stands: ciphertexts already out stay, the flag is never cleared, and once the tag is computed neither upload nor cipher changes. |
| Multipart.SectionIsSubmit | src/s3_encryption/pipelines.py:282-308 | The statements run without interruption are exactly `Submit`, retries and refusals included. |
| Multipart.FlagMeansTagged | src/s3_encryption/pipelines.py:300-303 | At every point of the section: when the final flag is set, the cipher was closed and its tag covers exactly the accepted plaintext. |
| Multipart.SubmitExtends | src/s3_encryption/pipelines.py:282-308 | A call leaves the upload as it is or appends the part numbered one past the last; never after the final part; ciphertexts already out stay valid and the new result is the right slice. |
| Multipart.RunHandsOutOneEncryption | src/s3_encryption/pipelines.py:282-308 | Over every run of calls, each ciphertext handed out for part n is that part's slice of the one encryption of the accepted parts 1..k. |
| Multipart.CiphertextsAreOneEncryption | src/s3_encryption/pipelines.py:298-303 | The first k ciphertexts concatenate to the start of one encryption; all of them, once the last was final, are all of it, the tag once and at the end. |
| Multipart.PipelineRefinesRun | src/s3_encryption/pipelines.py:268-308 | Over every run of calls the pipeline's fields and results are those of the pure run. |
| Multipart.KeystreamNotReused | src/s3_encryption/pipelines.py:283-298 | Over every run of calls, retries with other data and rejected calls included, the cipher enciphered exactly the accepted plaintext, byte i at position i: no position twice, none left out, nothing else; and what it put out is each byte xored with the keystream at its position. |
| Multipart.HandedOutBytes | src/s3_encryption/pipelines.py:268-308 | Over every run of calls, byte j of the ciphertext handed out for part n is byte j of that part xored with the keystream at position offset of the part + j; the last part of a final upload, and no other, is followed by the 16 tag bytes over the whole ciphertext. |
| Multipart.PartsAcceptedExactly | src/s3_encryption/pipelines.py:283-296 | In any run a part is added exactly when it carries the next number and no part before was final; a retry of the latest part is answered; every other call gets the error for its cause, after the final part or out of sequence. |
| Multipart.RetryRepeats | src/s3_encryption/pipelines.py:283-285 | A retry of the latest part returns the identical ciphertext and changes nothing, whatever data and final mark it carries. |
| Multipart.NoCiphertextExactly | src/s3_encryption/pipelines.py:284-285 | In any run of calls, a call returns no ciphertext and no error exactly when it asks for part 0 and no earlier call was accepted. |
| Client.S3EncryptionClient.CreateMultipartUpload | src/s3_encryption/__init__.py:584-623 | Succeeds exactly when KMS gives a data key, keys can be derived from it and S3 answers; cipher and metadata are obtained from the keyring for the caller's context; a new pipeline is registered under the id S3 returned, its metadata over the user's; a failure leaves the table alone. |
| Client.S3EncryptionClient.UploadPart | src/s3_encryption/__init__.py:637-677 | Encrypts as the pipeline says and stores exactly that ciphertext under the part's number. The error is that of its cause: unknown id, part rejected, or S3 not answering the call; without one the part is stored. |
| Client.S3EncryptionClient.CompleteMultipartUpload | src/s3_encryption/__init__.py:683-718 | Succeeds exactly when the id is registered, the final part was encrypted, S3 has the listed parts and answers; then the object is the listed parts and the upload is forgotten; any failure keeps it registered. |
| Client.S3EncryptionClient.AbortMultipartUpload | src/s3_encryption/__init__.py:724-736 | The upload is forgotten whether or not S3, which is always asked, manages to abort it; when it does, its parts are gone, and otherwise the error is passed on. |
| Client.S3EncryptionClient.UploadNext | src/s3_encryption/__init__.py:841-853 | One round reads `chunk_size` ahead and sends the chunk in hand as the next part, marked last exactly when that read came back empty; it fails exactly when the read raises or S3 does not answer. |
| Client.S3EncryptionClient.SendChunks | src/s3_encryption/__init__.py:836-853 | Parts are numbered 1..n, hold the readable's data in order, are all with S3, and the nth alone was final; an empty readable sends none. It fails exactly when one of its reads raises or one of its calls to S3 is not answered. |
| Client.S3EncryptionClient.CompleteUpload | src/s3_encryption/__init__.py:855-860 | Completing with all parts listed stores one AES-GCM encryption of the whole data. |
| Client.S3EncryptionClient.MultipartUploadFromReadable | src/s3_encryption/__init__.py:809-866 | Succeeds exactly when the readable is not empty, KMS gives a data key that keys can be derived from, no read raises and S3 answers the calls that create the upload, send each chunk and complete it. Then one encryption of exactly the remaining data is stored, under the cipher and metadata of a new data key for the context. On every exit the table is what it was; a failure stores nothing, and leaves the upload open at S3 only if S3 did not answer the abort. |
| Client.Conditions.UploadGoesExactly | src/s3_encryption/__init__.py:836-866 | The chain of reads and calls of an upload goes through exactly when S3 answers as many calls as there are chunks and two more, and the readable raises at none of the positions it is read at. |
| ConcurrentUploads.ProceedKeepsInvariant | src/s3_encryption/pipelines.py:282-308 | Any single statement of a locked section keeps what every other thread and S3 hold right. |
| ConcurrentUploads.CheckKeepsInvariant | src/s3_encryption/__init__.py:703-707 | The unlocked read of the final flag may fall between any two statements of another thread's section; when it sees the flag, the upload is tagged and final. |
| ConcurrentUploads.SectionsExclude | src/s3_encryption/pipelines.py:282 | Two threads are never inside the same pipeline's section. |
| ConcurrentUploads.KeystreamsNotReused | src/s3_encryption/pipelines.py:282-308 | After every interleaving, also in the middle of sections, a pipeline's cipher enciphered exactly the accepted plaintext, each byte once and in part order, and beyond it at most the last part's data, while the lock's holder has yet to compute the tag. |
| ConcurrentUploads.ExecutionsKeepInvariant | src/s3_encryption/__init__.py:620-736 | After every interleaving of any threads' statements: fields agree with where the lock's holder stands; everything encrypted, in flight or stored is a slice of its upload's one encryption; table and objects agree with the pipelines. |
| ConcurrentUploads.CompletedObjectDecrypts | src/s3_encryption/__init__.py:697-718 | After every interleaving, an object completed from all parts of its upload is one encryption of the accepted plaintext in part order, and decrypts to it. |
| ConcurrentUploads.CompletedObjectDecryptsExactly | src/s3_encryption/__init__.py:683-718 | With parts listed in ascending order, a completed object decrypts to the accepted plaintext exactly when every part left out is empty and not the last. |
| ConcurrentUploads.PartsCanBeLeftOut | src/s3_encryption/__init__.py:697-718 | For every non-empty first part there is an interleaving after which the object was completed without it and does not decrypt to what was uploaded. |
| ConcurrentUploads.SendPart | src/s3_encryption/__init__.py:652-677 | An idle thread can always get a part that the pipeline accepts through the locked section to S3, leaving the lock free and everything else as it was. |
| ConcurrentUploads.FinalUploadIsFrozen | src/s3_encryption/pipelines.py:263-266 | The unlocked read of the final flag is sound: from when the concrete flag is set, at every later moment it is set, the tag was computed over the whole plaintext, and upload and cipher are unchanged, whatever statements follow. |
| ConcurrentUploads.CompletionFollowsFinalPart | src/s3_encryption/__init__.py:703-710 | Whenever a thread is past the check in complete, the final part was encrypted and the tag covers all parts. |
| ConcurrentUploads.UploadsAreIndependent | src/s3_encryption/__init__.py:653-736 | Any number of steps about other uploads, by any threads, leaves an upload's pipeline, table entry, stored parts and object as they were. |
| UploadLifetimes.EndedForEver | src/s3_encryption/__init__.py:652-736 | Whatever any threads do later, an upload the client has forgotten is never registered again, and under the id of an upload S3 has closed no part is stored or replaced and no object appears, changes or goes. |
| UploadLifetimes.CompletedForEver | src/s3_encryption/__init__.py:697-718 | An upload is completed at most once: the object it became is there for ever and never changes. |
| UploadLifetimes.AbortIsFinal | src/s3_encryption/__init__.py:724-736 | From the first statement of an abort the client has forgotten the upload for ever, also while other threads act before S3 is asked; once S3 has agreed, the upload is closed for ever. |
| UploadLifetimes.CompletionIsFinal | src/s3_encryption/__init__.py:709-718 | A thread that saw the final flag, with the listed parts at S3, completes: the object is those parts for ever, and after the thread's last statement the client has forgotten the upload for ever. |
| Materials.ContentCipherIdentifiesSuite | src/s3_encryption/materials/materials.py:148-158 | The lookup finds a suite exactly by the name that suite stores, and the three names are the literal ones. |
| Materials.ValidConfigsExactly | src/s3_encryption/__init__.py:118-153 | A configuration is valid exactly for plain GCM with the policy that forbids commitment, or the committing suite with one that requires it; never for CBC. |
| Materials.DeriveKeys | src/s3_encryption/key_derivation.py:69-140 | Derivation succeeds exactly for 32-byte data keys of a committing suite, giving a 32-byte key and a 28-byte commitment. |
| Materials.DerivedBytes | src/s3_encryption/key_derivation.py:69-140 | Byte by byte: the HMAC of the data key under the message id as salt is expanded with the two suite id bytes and DERIVEKEY to the 32-byte key, and with the suite id bytes and COMMITKEY to the 28-byte commitment. |
| Metadata.ToDict | src/s3_encryption/metadata.py:114-173 | Filling the dictionary field by field gives every set field under its name and nothing else. |
| Metadata.WriteReadNormalizes | src/s3_encryption/metadata.py:79-173 | Reading back what was written gives a normal form that is written identically and has the same format; it is the original exactly when no tag length is dropped and no dictionary becomes text. |
| Metadata.FormatsExclude | src/s3_encryption/metadata.py:175-271 | No metadata has two formats, and one that has a format needs no instruction file unless V3 content keys lie beside V1 or V2 keys. |
| Kms.UnwrapsExactlyAsBound | src/s3_encryption/materials/kms_keyring.py:152-262 | Under kms+context a data key is released exactly for the stored context it was generated with, the suite it was generated for, and the caller's context without the reserved keys. |
| Kms.KmsKeyring.OnEncrypt | src/s3_encryption/materials/kms_keyring.py:60-108 | Succeeds exactly when KMS does. The suite's cipher name is written into the context the data key is generated under, and the materials get that key and its blob; when KMS refuses, the error is passed on, KMS is as before and the materials get no key. |
| Kms.KmsKeyring.OnDecrypt | src/s3_encryption/materials/kms_keyring.py:110-272 | The imperative checks and the KMS call give exactly the result of `UnwrapDataKey`, and a failure leaves the materials without a new key. |
| GetPipeline.AcceptedFormatMatchesSuite | src/s3_encryption/pipelines.py:456-489 | Accepted V1 means CBC, V2 means CBC or plain GCM, V3 holds exactly when the suite commits; exactly that format's key is present, and V2 carries no V3 content key. |
| GetPipeline.AcceptedFields | src/s3_encryption/metadata.py:175-230 | Which fields an accepted object of each format has as text, with the literal cipher names, and which it lacks: the other formats' data keys, and for V2 all V3 content keys. |
| GetPipeline.AcceptedCipher | src/s3_encryption/pipelines.py:576-689 | Accepted V1 and V2 objects are decrypted with the stored IV under the data key of 16, 24 or 32 bytes: CBC with an IV of 16 bytes, AES-GCM with one of 8 to 128 and no AAD. |
| GetPipeline.AcceptedObeysPolicy | src/s3_encryption/pipelines.py:501-574 | V3 means a verified commitment; the strictest policy accepts nothing but V3; CBC needs the legacy option; unauthenticated plaintext can leave only for CBC or with delayed authentication. |
| GetPipeline.PolicyFilters | src/s3_encryption/pipelines.py:501-541 | Legacy option and policy only filter: an object is accepted under a configuration in the same way as under the most permissive one, or rejected with the error for CBC without the legacy option, or for no commitment under the strictest policy. |
| GetPipeline.AcceptedWrapping | src/s3_encryption/materials/kms_keyring.py:152-236 | Every accepted object names "kms+context", or, in V1 and V2 with the option on and no request context, "kms"; in V3 "12", or nothing. |
| GetPipeline.AcceptedSuiteIsBound | src/s3_encryption/materials/kms_keyring.py:158-200 | For arbitrary metadata: an object accepted under kms+context is decrypted with the suite and data key its wrapped key was generated for, and the request equals that context without the reserved keys. |
| GetPipeline.AcceptedIsBoundOrLegacy | src/s3_encryption/materials/kms_keyring.py:152-228 | For every accepted object whose wrapped key was generated for a suite and context: it gets that data key, and either has that suite and that context without the reserved keys, or is V1 or V2, names the legacy wrapping, which is enabled, and was requested without a context. |
| GetPipeline.LegacyWrappingIsAccepted | src/s3_encryption/materials/kms_keyring.py:206-224 | The second case occurs for any data key and any suite without commitment that the configuration lets through. |
| GetPipeline.BlobIsBoundExactly | src/s3_encryption/materials/kms_keyring.py:152-228 | For a given data key, all accepted objects have its suite and context exactly when legacy wrapping is off, the policy is the strictest, the key is no AES key, or it was made for plain GCM and an empty context with legacy modes off. |
| GetPipeline.InstructionFileIsRead | src/s3_encryption/pipelines.py:392-454 | An object without client headers of its own whose instruction object carries the envelope in its own metadata, with an empty JSON object as body, is accepted with that data key. |
| GetPipeline.InstructionFileProvenance | src/s3_encryption/pipelines.py:392-481 | On every object accepted through an instruction file, V3 takes cipher, commitment and message id from the object; V1 and V2 take cipher, IV and wrapping algorithm from the file and the object has none; V2 has no V3 content key. |
| InstructionFiles.FetchedExactly | src/s3_encryption/instruction_file.py:43-63 | An instruction object is accepted exactly when its body is a JSON object with none but the fifteen literal names as keys and there is any metadata at all; each header is then the body's entry under its literal name, else the instruction object's own metadata; each other body gets the error for its cause. |
| InstructionFiles.NeedsFileExactly | src/s3_encryption/pipelines.py:392-410 | An object is decrypted by its own headers, whatever instruction file there is, exactly when it has a data key of any format and not all three V3 content keys without a V3 data key; every other object needs a file, and fails when files are off or none is there. |
| InstructionFiles.MergedByName | src/s3_encryption/pipelines.py:412-441 | Whenever metadata are resolved through an instruction file, each field is read from the object's own header if it has one, else from what the file says under its literal name, and the file has no V3 content key. |
| InstructionFiles.EnvelopeV1IsRead | src/s3_encryption/pipelines.py:392-454 | An object without client headers whose instruction file's JSON body is a V1 envelope under the literal names, wrapped with "kms", is accepted exactly when instruction files, legacy modes and legacy wrapping are on, the policy is not the strictest and the request has no context; then as CBC with that data key and IV. |
| InstructionFiles.EnvelopeV2IsRead | src/s3_encryption/pipelines.py:392-454 | The same for a V2 envelope under "kms+context": accepted exactly when instruction files are on, the policy is not the strictest and the request is the data key's context without the reserved keys; then as AES-GCM with that data key and IV and no AAD. |
| InstructionFiles.EnvelopeV3IsRead | src/s3_encryption/pipelines.py:392-454 | An object with the three V3 content headers whose instruction file's body holds data key, wrapping and context is accepted exactly when instruction files are on, the request is the data key's context without the reserved keys, the data key has 32 bytes and the commitment is the one it derives with the message id; then with the key derived along with it, the fixed IV of twelve 0x01 and the suite id as AAD. |
| GetPipeline.ContentKeysMeanV3OrLegacyV1 | src/s3_encryption/pipelines.py:456-517 | An accepted object with a V3 content key in its own headers is V3, or V1 with legacy modes on and not under the strictest policy. |
| GetPipeline.V1WithContentKeyIsAccepted | src/s3_encryption/pipelines.py:473-485 | The second case occurs for every data key the keyring releases for CBC, under kms+context or, when enabled, the legacy wrapping: V1 headers with any text under x-amz-c are accepted. |
| GetPipeline.ContentKeysMeanV3Exactly | src/s3_encryption/pipelines.py:456-517 | All accepted objects with a V3 content key in their own headers are V3 exactly when legacy modes are off, the policy is the strictest, or no data key can be had for CBC. |
| GetPipeline.ContentKeysMeanV3ByConfig | src/s3_encryption/pipelines.py:456-541 | With one data key made for CBC at hand, exactly when legacy modes are off or the policy is the strictest. |
| GetPipeline.OpenBody | src/s3_encryption/pipelines.py:576-689 | Without streaming the caller gets the one-shot result and nothing before it; with streaming, a new stream over the body for that cipher. |
| PutPipeline.Obtain | src/s3_encryption/pipelines.py:207-256 | Fails for want of a data key exactly when KMS refuses, which leaves KMS unchanged; otherwise the keyring's new data key, bound to context and suite at KMS, gives cipher and metadata. |
| PutPipeline.PreparedFields | src/s3_encryption/pipelines.py:84-172 | What is written, for both suites: every header with its literal or encoded value, and key, IV and AAD of the cipher byte by byte; preparing fails exactly for a data key of other than 32 bytes under the committing suite. |
| PutPipeline.Encrypt | src/s3_encryption/pipelines.py:50-172 | Fails for want of a data key exactly when KMS refuses, which leaves KMS unchanged; otherwise KMS has the suite bound into the context of a new data key, and body and headers are the sealed plaintext and the serialised metadata of that key. |
| RoundTrip.PlainDecision | src/s3_encryption/pipelines.py:84-116 | A non-committing object's own metadata needs no instruction file, parses as V2 and is accepted exactly for the right request, with the cipher it was written with. |
| RoundTrip.CommittingDecision | src/s3_encryption/pipelines.py:118-172 | A committing object's own metadata needs no instruction file, parses as V3 and is accepted exactly for the right request, with the cipher it was written with. |
| RoundTrip.HarmfulHeadersRejectPlain | src/s3_encryption/pipelines.py:462-481 | A V2 object with another format's key or a V3 content key beside it is rejected, whatever an instruction file says. |
| RoundTrip.HarmfulHeadersRejectCommitting | src/s3_encryption/pipelines.py:462-466 | A V3 object with another format's key beside it is rejected, whatever an instruction file says. |
| RoundTrip.ReadsBackExactly | src/s3_encryption/__init__.py:118-153 | For every configuration that validates, either authentication mode, any user metadata and any instruction file: a client's own write is accepted if and only if the user's headers do not clash and the request context is the original without the reserved keys; then with the cipher it was written with. |
| RoundTrip.PutThenGet | src/s3_encryption/materials/kms_keyring.py:161-178 | Put then get under the same context works exactly when neither "aws:x-amz-cek-alg" nor "kms_cmk_id" is in that context and the headers do not clash, and then gives the plaintext. |
| RoundTrip.UploadThenStream | src/s3_encryption/pipelines.py:268-308 | For every run of part calls with retries that accepted a final part, the assembled object is accepted exactly for harmless headers and the context without the reserved keys, with the cipher it was written with; and every run of reads with sizes other than 0 delivers a prefix of the accepted plaintext, and all of it once finished. |
| EndToEnd.PutAndReadBack | src/s3_encryption/__init__.py:383-579 | From the keyring on: the put succeeds exactly when KMS gives a data key; the object is then accepted exactly for harmless headers and the context without the reserved keys, and reading it gives the plaintext, in both authentication modes and for every read size. |
| EndToEnd.UploadAndReadBack | src/s3_encryption/__init__.py:809-866 | From the keyring on: an upload of a readable succeeds exactly when the readable is not empty and none of the calls it makes to KMS, S3 and the readable fails; the object is then accepted exactly for harmless headers and the context without the reserved keys, and reading it back gives exactly what the readable held, for every chunk size, read size, schedule of short reads and authentication mode. |
| EndToEnd.ReadBody | src/s3_encryption/pipelines.py:554-572 | Reading the opened body to its end gives the one-shot decryption, streamed or buffered. |
| RequestContext.Plugin.GetObject | src/s3_encryption/__init__.py:511-579 | Succeeds exactly when S3 returns an object with a length that passes the checks and, if it needs one, an instruction file that parses and describes it. What it does is determined by the two responses: the response is taken as ciphertext at most once, with this request's bucket, key and context, then at most one instruction file is fetched (counted before it can fail) from the same bucket under the key with the suffix, and at most that one parsed. No attribute or flag is left. |
| RequestContext.Plugin.OnGetObjectAfterCall | src/s3_encryption/__init__.py:223-280 | In instruction-file mode the handler only parses, and fails on a response without a body; otherwise it decrypts with the attributes it finds, with at most one nested fetch, failed ones included, leaves error responses alone, and leaves the mode as it found it. |
| RequestContext.Plugin.FetchInstructionFile | src/s3_encryption/instruction_file.py:88-126 | Exactly one nested get, in instruction-file mode, which only parses; the mode is off again however it ends, and it succeeds exactly when the file was returned, parsed and describes an object. |
| RequestContext.Plugin.PutObject | src/s3_encryption/__init__.py:383-419 | The handler encrypts once, under exactly the context of this request; the put succeeds exactly when that works and S3 takes the object; it never finds instruction-file mode on and leaves nothing behind. |
| RequestContext.Plugin.Session | src/s3_encryption/__init__.py:383-579 | Over every sequence of gets and puts on one thread, failing anywhere, the state between calls is clean and the log is the one S3's responses determine. |
| RequestContext.StoryIsExplained | src/s3_encryption/__init__.py:383-579 | Whatever the responses, each call of a sequence does only what it may, in this order: one encryption under its own context for a put; at most one decryption, one nested fetch and one parsed instruction file, with its own attributes, for a get. |
| ClientCache.CachedExactly | test-server/cpp-v2-transition-server/main.cpp:113-139 | An id is cached exactly when it was used and fewer than 100 distinct other ids were used since. |
| ClientCache.Position | test-server/cpp-v2-transition-server/main.cpp:104-107 | The ids ahead of an id in the recency list are exactly the distinct ones used since it was. |
| ClientCache.UseCached | test-server/cpp-v2-transition-server/main.cpp:104-107 | Moving a cached id to the front is one more use of it in the abstract cache. |
| ClientCache.UseNew | test-server/cpp-v2-transition-server/main.cpp:119-139 | Inserting at the front and dropping off the end is the first use of an uncached id in the abstract cache. |
| ClientCache.LruCache.GetClient | test-server/cpp-v2-transition-server/main.cpp:96-111 | A hit returns the client stored under the id and counts as a use; a miss changes nothing; map and list stay in step with the abstract cache. |
| ClientCache.LruCache.SetClient | test-server/cpp-v2-transition-server/main.cpp:113-143 | The new client is cached under its id, survivors keep their clients, and map and list stay in step with the abstract cache. |
| ClientCache.LruCache.Evict | test-server/cpp-v2-transition-server/main.cpp:128-139 | Ends with at most 100 clients, keeping exactly the first 100 of the list, and never pops an empty list. |
| MetadataText.StringToMap | test-server/ruby-v3-server/lib/metadata_utils.rb:7-27 | The loop over entries computes `Parse`; the first malformed entry raises. |
| MetadataText.FirstErrorStays | test-server/ruby-v3-server/lib/metadata_utils.rb:13-24 | Entries after the first malformed one do not matter. |
| MetadataText.ParsePrinted | test-server/ruby-v3-server/lib/metadata_utils.rb:15-20 | An entry without commas or separators is read back from its printed form, brackets in it included. |
| MetadataText.SplitJoined | test-server/ruby-v3-server/lib/metadata_utils.rb:11 | Splitting at commas undoes joining with commas for comma-free pieces. |
| MetadataText.PrintParse | test-server/ruby-v3-server/lib/metadata_utils.rb:7-40 | Parsing the printed form gives the hash back if and only if no key or value has a comma or the separator in it. |
| MetadataText.PrintsLiterally | test-server/ruby-v3-server/lib/metadata_utils.rb:32-40 | Each entry is printed as its key and value in brackets with a colon between, a comma before it when it is not the first; the empty hash as nothing. |
| MetadataText.PiecesExactly | test-server/ruby-v3-server/lib/metadata_utils.rb:11 | Splitting at commas gives the one non-empty list of comma-free pieces that joins back to the text. |
| MetadataText.LaterOverwrites | test-server/ruby-v3-server/lib/metadata_utils.rb:13-21 | Under every key the parsed hash holds the value of the last entry with that key, and nothing under a key no entry has. |

## Left out

- AES, GHASH, HMAC and SHA-512: uninterpreted functions; constant-time comparison is equality, and random IVs, message ids and data keys are parameters.
- GCM's limits on message length and the cipher library's refusal beyond them.
- Kms.KmsKeyring.OnDecrypt: KMS decrypts exactly for a known blob and the context it was wrapped under; its other failures (outages, permissions) are not modelled.
- Errors raised by the response body itself in the middle of a read, and errors of the cipher library inside an encryption.
- Stream.DecryptingStream.Read: sizes below 0 are not modelled, because the source hands them to the response body, whose answer to them is its own.
- Stream.DecryptingStream.ReadInto: the buffer is a bytearray, which grows when a CBC result is longer; over a buffer that cannot grow the assignment raises instead.
- `readlines`, `tell`, `close` and the default-size iterator of the stream: one call each on top of `read`.
- Header names outside the fifteen the client owns: never read, so not represented; matching of names is exact.
- JSON numbers, booleans and lists in headers are kept only as values that are neither text nor dictionary, with their truth value; the JSON and base64 codecs are parameters with a stated inverse.
- RequestContext.Plugin.GetObject: whether the checks of the decision pass is part of the scheduled response (`GetPipeline` says when they do), and a check that fails before an instruction file would be fetched counts as needing none; the thread-local store is modelled for one thread.
- RequestContext.Plugin.PutObject: whether encryption succeeds is a parameter (`PutPipeline.Encrypt` says when it does), which also covers bodies of unexpected types.
- ConcurrentUploads.ExecutionsKeepInvariant: S3's creation of an upload and the table insert are one step, since no other thread can know the id in between; a look-up or removal under the table's lock is one step; the cipher's calls inside a section do not raise; parts and completions S3 accepts although it reported an error are not modelled.
- Client.S3EncryptionClient.CompleteMultipartUpload: neither the client nor the model checks that the caller lists all parts; the uploads of a readable do list them, and `ConcurrentUploads.CompletedObjectDecryptsExactly` says what becomes of an object that leaves some out.
- Metadata.FormatsExclude: the V1 and V2 predicates of the source do not look at V3 keys, so V1 or V2 metadata can still ask for an instruction file when V3 content keys are beside it.
- S3's promise that upload ids are new and the test server's that client ids are: preconditions on the id.
- `upload_file` and `upload_fileobj` size thresholds, `delete_object`, `delete_objects`, attribute proxying, range rejection, the ASCII check on contexts and event registration: one-branch facts.
- Closing the readable after an upload, and text bodies that the client encodes first.
- Materials conversion to and from dictionaries, and the default materials manager, which passes requests through to the keyring.
- Raw RSA and AES keyrings, ranged gets and re-encryption: not implemented in this client.
- The other test servers, the Java integration tests and the deployment code.
