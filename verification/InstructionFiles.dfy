/** Objects described by an instruction file, stated over the names and the text in that file. */
module InstructionFiles {
  import opened Wrappers
  import opened AesGcm
  import opened AesCbc
  import opened Decryptors
  import opened Materials
  import opened Metadata
  import opened Kms
  import opened GetPipeline

  /** The keys an instruction file may have. */
  const NAMES: set<string> :=
    {"x-amz-key", "x-amz-key-v2", "x-amz-wrap-alg", "x-amz-matdesc", "x-amz-iv", "x-amz-cek-alg", "x-amz-tag-len",
     "x-amz-crypto-instr-file", "x-amz-c", "x-amz-3", "x-amz-m", "x-amz-t", "x-amz-w", "x-amz-d", "x-amz-i"}

  lemma NamesOfHeaders()
    ensures (set key: Header | true :: Name(key)) == NAMES
  {
    assert NAMES == {Name(DataKeyV1), Name(DataKeyV2), Name(WrapAlg), Name(MatDesc), Name(Iv), Name(CekAlg), Name(TagLen),
                     Name(InstructionMarker), Name(CipherV3), Name(DataKeyV3), Name(MatDescV3), Name(ContextV3),
                     Name(WrapAlgV3), Name(CommitmentV3), Name(MessageIdV3)};
    forall key: Header
      ensures Name(key) in NAMES
    {
      match key case _ =>
    }
  }

  /** A header is the body's entry under this name, else the instruction object's own metadata. */
  ghost predicate Holds(h: Headers, file: InstructionObject, entries: Dict, key: Header, name: string) {
    && (key in h <==> name in entries || key in file.metadata)
    && (key in h ==> h[key] == if name in entries then entries[name] else Text(file.metadata[key]))
  }

  /** Every header is what the file says under its literal name. */
  ghost predicate HoldsAll(h: Headers, file: InstructionObject, entries: Dict) {
    HoldsOld(h, file, entries) && HoldsNew(h, file, entries)
  }

  ghost predicate HoldsOld(h: Headers, file: InstructionObject, entries: Dict) {
    && Holds(h, file, entries, DataKeyV1, "x-amz-key") && Holds(h, file, entries, DataKeyV2, "x-amz-key-v2")
    && Holds(h, file, entries, WrapAlg, "x-amz-wrap-alg") && Holds(h, file, entries, MatDesc, "x-amz-matdesc")
    && Holds(h, file, entries, Iv, "x-amz-iv") && Holds(h, file, entries, CekAlg, "x-amz-cek-alg")
    && Holds(h, file, entries, TagLen, "x-amz-tag-len")
    && Holds(h, file, entries, InstructionMarker, "x-amz-crypto-instr-file")
  }

  ghost predicate HoldsNew(h: Headers, file: InstructionObject, entries: Dict) {
    && Holds(h, file, entries, CipherV3, "x-amz-c") && Holds(h, file, entries, DataKeyV3, "x-amz-3")
    && Holds(h, file, entries, MatDescV3, "x-amz-m") && Holds(h, file, entries, ContextV3, "x-amz-t")
    && Holds(h, file, entries, WrapAlgV3, "x-amz-w") && Holds(h, file, entries, CommitmentV3, "x-amz-d")
    && Holds(h, file, entries, MessageIdV3, "x-amz-i")
  }

  ghost predicate HoldsByName(h: Headers, file: InstructionObject, entries: Dict) {
    forall key: Header :: Holds(h, file, entries, key, Name(key))
  }

  lemma HoldsOldByName(h: Headers, file: InstructionObject, entries: Dict)
    requires HoldsByName(h, file, entries)
    ensures HoldsOld(h, file, entries)
  {
    assert Name(DataKeyV1) == "x-amz-key" && Name(DataKeyV2) == "x-amz-key-v2" && Name(WrapAlg) == "x-amz-wrap-alg";
    assert Name(MatDesc) == "x-amz-matdesc" && Name(Iv) == "x-amz-iv" && Name(CekAlg) == "x-amz-cek-alg";
    assert Name(TagLen) == "x-amz-tag-len" && Name(InstructionMarker) == "x-amz-crypto-instr-file";
  }

  lemma HoldsNewByName(h: Headers, file: InstructionObject, entries: Dict)
    requires HoldsByName(h, file, entries)
    ensures HoldsNew(h, file, entries)
  {
    assert Name(CipherV3) == "x-amz-c" && Name(DataKeyV3) == "x-amz-3" && Name(MatDescV3) == "x-amz-m";
    assert Name(ContextV3) == "x-amz-t" && Name(WrapAlgV3) == "x-amz-w" && Name(CommitmentV3) == "x-amz-d";
    assert Name(MessageIdV3) == "x-amz-i";
  }

  /** An instruction object is accepted exactly when its body is a JSON object with none but the
      fifteen keys and there is any metadata at all; every header is then the body's entry under its
      name, else the instruction object's own metadata. */
  lemma FetchedExactly(codec: Codec, file: InstructionObject)
    ensures var r, body := FetchInstructionFile(codec, Some(file)), codec.loads(file.body);
            && (r.Ok? <==>
                  && body.Some? && body.value.Object? && body.value.entries.Keys <= NAMES
                  && (file.metadata != map[] || body.value.entries != map[]))
            && (r.Ok? ==> HoldsAll(r.value, file, body.value.entries))
            && (body == None ==> r == Err(InstructionFileNotJson))
            && (body.Some? && !body.value.Object? ==> r == Err(InstructionFileNotAnObject))
            && (body.Some? && body.value.Object? && !(body.value.entries.Keys <= NAMES) ==> r == Err(InstructionFileInvalidKeys))
  {
    NamesOfHeaders();
    match codec.loads(file.body)
    case Some(Object(entries)) =>
      if entries.Keys <= NAMES {
        var parsed := map key: Header | Name(key) in entries :: entries[Name(key)];
        assert ParseInstructionFile(codec, file.body) == Ok(parsed);
        NotEmptyExactly(file, entries, parsed);
        HoldsOldByName(TextHeaders(file.metadata) + parsed, file, entries);
        HoldsNewByName(TextHeaders(file.metadata) + parsed, file, entries);
      }
    case _ =>
  }

  lemma NotEmptyExactly(file: InstructionObject, entries: Dict, parsed: Headers)
    requires entries.Keys <= (set key: Header | true :: Name(key))
    requires parsed == map key: Header | Name(key) in entries :: entries[Name(key)]
    ensures TextHeaders(file.metadata) + parsed == map[] <==> file.metadata == map[] && entries == map[]
  {
    var merged := TextHeaders(file.metadata) + parsed;
    forall name | name in entries
      ensures merged != map[]
    {
      var key: Header :| Name(key) == name;
      assert key in merged;
    }
    forall key | key in file.metadata
      ensures merged != map[]
    {
      assert key in merged;
    }
  }

  /** Which objects are decrypted without an instruction file: those with a data key of their own,
      unless they have all V3 content keys but no V3 data key. An instruction file then changes
      nothing; every other object needs one. */
  lemma NeedsFileExactly(codec: Codec, cfg: GetConfig, headers: Headers, instruction: Option<InstructionObject>)
    requires FromDict(codec, headers).Ok?
    ensures var complete :=
              && (Get(headers, DataKeyV1) != Null || Get(headers, DataKeyV2) != Null || Get(headers, DataKeyV3) != Null)
              && (Get(headers, CipherV3) != Null && Get(headers, CommitmentV3) != Null && Get(headers, MessageIdV3) != Null
                  ==> Get(headers, DataKeyV3) != Null);
            && (complete ==> ResolveMetadata(codec, cfg, headers, instruction) == Ok(FromDict(codec, headers).value))
            && (!complete && cfg.disableInstructionFile ==>
                  ResolveMetadata(codec, cfg, headers, instruction) == Err(InstructionFileDisabled))
            && (!complete && !cfg.disableInstructionFile && instruction == None ==>
                  ResolveMetadata(codec, cfg, headers, instruction) == Err(InstructionFileUnavailable))
  {
    assert Read(codec, headers) == Ok(FromDict(codec, headers).value);
  }

  /** Whenever metadata are resolved through an instruction file, they are read from the object's own
      headers and, for the others, from what the file says under their names. */
  lemma MergedByName(codec: Codec, cfg: GetConfig, headers: Headers, file: InstructionObject)
    returns (entries: Dict, fetched: Headers, h: Headers)
    requires FromDict(codec, headers).Ok? && FromDict(codec, headers).value.ShouldUseInstructionFile()
    requires ResolveMetadata(codec, cfg, headers, Some(file)).Ok?
    ensures !cfg.disableInstructionFile
    ensures codec.loads(file.body) == Some(Object(entries)) && HoldsAll(fetched, file, entries)
    ensures CipherV3 !in fetched && CommitmentV3 !in fetched && MessageIdV3 !in fetched
    ensures forall key: Header :: Get(h, key) == if key in headers then headers[key] else Get(fetched, key)
    ensures FromDict(codec, h) == Ok(ResolveMetadata(codec, cfg, headers, Some(file)).value)
  {
    FetchedExactly(codec, file);
    entries := codec.loads(file.body).value.entries;
    fetched := FetchInstructionFile(codec, Some(file)).value;
    h := fetched + headers;
    assert Read(codec, h).Ok?;
  }

  // ---- Envelopes in the body of an instruction file ----

  /** An instruction object that has its envelope in its body, and no metadata but the marker. */
  ghost predicate HasEnvelope(codec: Codec, file: InstructionObject, entries: Dict) {
    codec.loads(file.body) == Some(Object(entries)) && file.metadata.Keys <= {InstructionMarker}
  }

  /** The entries of an instruction file that leave out what has to be on the object. */
  ghost predicate WholeEnvelope(entries: Dict) {
    && entries.Keys <= NAMES && entries != map[]
    && "x-amz-c" !in entries && "x-amz-d" !in entries && "x-amz-i" !in entries
  }

  /** What the merged headers hold: the object's own, else the envelope's entry. */
  function Merged(headers: Headers, entries: Dict, key: Header, name: string): Value {
    if key in headers then headers[key] else Lookup(entries, name)
  }

  lemma MergedGet(headers: Headers, fetched: Headers, file: InstructionObject, entries: Dict, key: Header, name: string)
    requires Holds(fetched, file, entries, key, name) && key !in file.metadata
    ensures Get(fetched + headers, key) == Merged(headers, entries, key, name)
  {
  }

  /** The headers to decrypt by, by their literal names in the envelope. */
  ghost predicate GetsFrom(h: Headers, headers: Headers, entries: Dict) {
    && Get(h, DataKeyV1) == Merged(headers, entries, DataKeyV1, "x-amz-key")
    && Get(h, DataKeyV2) == Merged(headers, entries, DataKeyV2, "x-amz-key-v2")
    && Get(h, WrapAlg) == Merged(headers, entries, WrapAlg, "x-amz-wrap-alg")
    && Get(h, MatDesc) == Merged(headers, entries, MatDesc, "x-amz-matdesc")
    && Get(h, Iv) == Merged(headers, entries, Iv, "x-amz-iv")
    && Get(h, CekAlg) == Merged(headers, entries, CekAlg, "x-amz-cek-alg")
    && Get(h, CipherV3) == Merged(headers, entries, CipherV3, "x-amz-c")
    && Get(h, DataKeyV3) == Merged(headers, entries, DataKeyV3, "x-amz-3")
    && Get(h, ContextV3) == Merged(headers, entries, ContextV3, "x-amz-t")
    && Get(h, WrapAlgV3) == Merged(headers, entries, WrapAlgV3, "x-amz-w")
    && Get(h, CommitmentV3) == Merged(headers, entries, CommitmentV3, "x-amz-d")
    && Get(h, MessageIdV3) == Merged(headers, entries, MessageIdV3, "x-amz-i")
  }

  lemma MergedFields(codec: Codec, headers: Headers, file: InstructionObject, entries: Dict)
    requires HasEnvelope(codec, file, entries) && WholeEnvelope(entries)
    ensures FetchInstructionFile(codec, Some(file)).Ok?
    ensures var fetched := FetchInstructionFile(codec, Some(file)).value;
            HoldsAll(fetched, file, entries) && GetsFrom(fetched + headers, headers, entries)
  {
    FetchedExactly(codec, file);
    var fetched := FetchInstructionFile(codec, Some(file)).value;
    MergedGet(headers, fetched, file, entries, DataKeyV1, "x-amz-key");
    MergedGet(headers, fetched, file, entries, DataKeyV2, "x-amz-key-v2");
    MergedGet(headers, fetched, file, entries, WrapAlg, "x-amz-wrap-alg");
    MergedGet(headers, fetched, file, entries, MatDesc, "x-amz-matdesc");
    MergedGet(headers, fetched, file, entries, Iv, "x-amz-iv");
    MergedGet(headers, fetched, file, entries, CekAlg, "x-amz-cek-alg");
    MergedGet(headers, fetched, file, entries, CipherV3, "x-amz-c");
    MergedGet(headers, fetched, file, entries, DataKeyV3, "x-amz-3");
    MergedGet(headers, fetched, file, entries, ContextV3, "x-amz-t");
    MergedGet(headers, fetched, file, entries, WrapAlgV3, "x-amz-w");
    MergedGet(headers, fetched, file, entries, CommitmentV3, "x-amz-d");
    MergedGet(headers, fetched, file, entries, MessageIdV3, "x-amz-i");
  }

  /** With no client headers on the object but V3 content keys, the file decides, if it is allowed. */
  lemma ResolvedFromFile(codec: Codec, cfg: GetConfig, headers: Headers, file: InstructionObject, m: ObjectMetadata)
    requires headers.Keys <= V3_CONTENT_KEYS && FetchInstructionFile(codec, Some(file)).Ok?
    requires FetchInstructionFile(codec, Some(file)).value.Keys !! V3_CONTENT_KEYS
    requires FromDict(codec, FetchInstructionFile(codec, Some(file)).value + headers) == Ok(m)
    ensures ResolveMetadata(codec, cfg, headers, Some(file)) ==
            if cfg.disableInstructionFile then Err(InstructionFileDisabled) else Ok(m)
  {
    NeedsFile(codec, headers);
    assert Read(codec, FetchInstructionFile(codec, Some(file)).value + headers) == Ok(m);
  }

  lemma NeedsFile(codec: Codec, headers: Headers)
    requires headers.Keys <= V3_CONTENT_KEYS
    ensures Read(codec, headers).Ok?
    ensures var own := Read(codec, headers).value;
            own.ShouldUseInstructionFile() && own.cekAlg == Null && own.iv == Null && own.wrapAlg == Null
  {
  }

  lemma NoContentKeys(fetched: Headers, file: InstructionObject, entries: Dict)
    requires HoldsNew(fetched, file, entries) && file.metadata.Keys <= {InstructionMarker}
    requires WholeEnvelope(entries)
    ensures fetched.Keys !! V3_CONTENT_KEYS
  {
  }

  lemma ResolvesFromFile(codec: Codec, cfg: GetConfig, headers: Headers, file: InstructionObject, entries: Dict)
    returns (h: Headers)
    requires headers.Keys <= V3_CONTENT_KEYS && HasEnvelope(codec, file, entries) && WholeEnvelope(entries)
    ensures GetsFrom(h, headers, entries)
    ensures FromDict(codec, h).Ok? ==>
              ResolveMetadata(codec, cfg, headers, Some(file)) ==
              if cfg.disableInstructionFile then Err(InstructionFileDisabled) else Ok(FromDict(codec, h).value)
  {
    MergedFields(codec, headers, file, entries);
    var fetched := FetchInstructionFile(codec, Some(file)).value;
    NoContentKeys(fetched, file, entries);
    h := fetched + headers;
    if FromDict(codec, h).Ok? {
      ResolvedFromFile(codec, cfg, headers, file, FromDict(codec, h).value);
    }
  }

  /** A V2 envelope: data key under kms+context, and everything else about the content. */
  function EnvelopeV2(codec: Codec, blob: bytes, iv: bytes, stored: Dict): Dict {
    map["x-amz-key-v2" := Text(codec.b64encode(blob)), "x-amz-wrap-alg" := Text("kms+context"),
        "x-amz-matdesc" := Text(codec.dumps(Object(stored))), "x-amz-iv" := Text(codec.b64encode(iv)),
        "x-amz-cek-alg" := Text("AES/GCM/NoPadding"), "x-amz-tag-len" := Text("128")]
  }

  /** An object without client headers whose instruction file holds a V2 envelope is accepted exactly
      when instruction files are on, the policy allows plain GCM and the request has the data key's
      context; then with that data key and the envelope's IV. */
  lemma EnvelopeV2IsRead(env: Env, cfg: GetConfig, headers: Headers, file: InstructionObject, request: Dict,
                         blob: bytes, key: bytes, iv: bytes, context: Dict)
    requires env.codec.Lawful() && headers == map[] && IsAesKey(key) && 8 <= |iv| <= 128
    requires blob in env.kms && env.kms[blob] == Entry(BoundContext(context, AesGcmNoKdf), key)
    requires HasEnvelope(env.codec, file, EnvelopeV2(env.codec, blob, iv, BoundContext(context, AesGcmNoKdf)))
    ensures var d := Decide(env, cfg, headers, Some(file), request);
            && (d.Ok? <==>
                  && !cfg.disableInstructionFile && !cfg.policy.RequireEncryptRequireDecrypt?
                  && request == WithoutReserved(context))
            && (d.Ok? ==>
                  && d.value.format == V2 && d.value.dataKey == key
                  && d.value.spec == GcmSpec(Gcm(env.prim, key, iv, [])))
  {
    var m := ResolvesV2(env.codec, cfg, headers, file, blob, iv, BoundContext(context, AesGcmNoKdf));
    if !cfg.disableInstructionFile {
      DecisionV2(env, cfg, m, request, blob, key, iv, context);
    }
  }

  lemma ResolvesV2(codec: Codec, cfg: GetConfig, headers: Headers, file: InstructionObject, blob: bytes, iv: bytes, stored: Dict)
    returns (m: ObjectMetadata)
    requires codec.Lawful() && headers == map[] && HasEnvelope(codec, file, EnvelopeV2(codec, blob, iv, stored))
    ensures FieldsV2(codec, m, blob, iv, stored)
    ensures ResolveMetadata(codec, cfg, headers, Some(file)) ==
            if cfg.disableInstructionFile then Err(InstructionFileDisabled) else Ok(m)
  {
    NamesV2(codec, blob, iv, stored);
    var h := ResolvesFromFile(codec, cfg, headers, file, EnvelopeV2(codec, blob, iv, stored));
    GetsV2(codec, h, headers, blob, iv, stored);
    m := FromDict(codec, h).value;
  }

  lemma NamesV2(codec: Codec, blob: bytes, iv: bytes, stored: Dict)
    ensures WholeEnvelope(EnvelopeV2(codec, blob, iv, stored))
  {
    assert "x-amz-key-v2" in EnvelopeV2(codec, blob, iv, stored);
  }

  lemma LookupsV2(codec: Codec, blob: bytes, iv: bytes, stored: Dict)
    ensures var e := EnvelopeV2(codec, blob, iv, stored);
            && Lookup(e, "x-amz-key") == Null && Lookup(e, "x-amz-3") == Null
            && Lookup(e, "x-amz-c") == Null && Lookup(e, "x-amz-d") == Null && Lookup(e, "x-amz-i") == Null
            && Lookup(e, "x-amz-key-v2") == Text(codec.b64encode(blob)) && Lookup(e, "x-amz-wrap-alg") == Text("kms+context")
            && Lookup(e, "x-amz-matdesc") == Text(codec.dumps(Object(stored)))
            && Lookup(e, "x-amz-iv") == Text(codec.b64encode(iv)) && Lookup(e, "x-amz-cek-alg") == Text("AES/GCM/NoPadding")
  {
  }

  lemma GetsV2(codec: Codec, h: Headers, headers: Headers, blob: bytes, iv: bytes, stored: Dict)
    requires codec.Lawful() && headers == map[] && GetsFrom(h, headers, EnvelopeV2(codec, blob, iv, stored))
    ensures FromDict(codec, h).Ok? && FieldsV2(codec, FromDict(codec, h).value, blob, iv, stored)
  {
    LookupsV2(codec, blob, iv, stored);
  }

  ghost predicate FieldsV2(codec: Codec, m: ObjectMetadata, blob: bytes, iv: bytes, stored: Dict) {
    && m.dataKeyV1 == Null && m.dataKeyV3 == Null
    && m.cipherV3 == Null && m.commitmentV3 == Null && m.messageIdV3 == Null
    && m.dataKeyV2 == Text(codec.b64encode(blob)) && m.wrapAlg == Text("kms+context") && m.context == Object(stored)
    && m.iv == Text(codec.b64encode(iv)) && m.cekAlg == Text("AES/GCM/NoPadding")
  }

  lemma DecisionV2(env: Env, cfg: GetConfig, m: ObjectMetadata, request: Dict, blob: bytes, key: bytes, iv: bytes, context: Dict)
    requires env.codec.Lawful() && IsAesKey(key) && 8 <= |iv| <= 128
    requires blob in env.kms && env.kms[blob] == Entry(BoundContext(context, AesGcmNoKdf), key)
    requires FieldsV2(env.codec, m, blob, iv, BoundContext(context, AesGcmNoKdf))
    ensures var d := DecideOn(env, cfg, m, request);
            && (d.Ok? <==> !cfg.policy.RequireEncryptRequireDecrypt? && request == WithoutReserved(context))
            && (d.Ok? ==>
                  && d.value.format == V2 && d.value.dataKey == key
                  && d.value.spec == GcmSpec(Gcm(env.prim, key, iv, [])))
  {
    var bound := BoundContext(context, AesGcmNoKdf);
    ContentCipherIdentifiesSuite("AES/GCM/NoPadding", AesGcmNoKdf);
    UnwrapsExactlyAsBound(env.kms, cfg.legacyWrapping, blob, context, AesGcmNoKdf, Object(bound), request, AesGcmNoKdf);
    assert CEK_ALG in bound;
    assert DetermineSuite(m) == Ok(AesGcmNoKdf) && FormatOf(m) == Ok(V2) && CheckFormat(m) == Ok(());
    assert CheckPolicy(cfg, AesGcmNoKdf).Ok? <==> !cfg.policy.RequireEncryptRequireDecrypt?;
    assert DataKeyOf(env, cfg, m, V2, request, AesGcmNoKdf).Ok? <==> request == WithoutReserved(context);
    if request == WithoutReserved(context) {
      assert DataKeyOf(env, cfg, m, V2, request, AesGcmNoKdf) == Ok(KeyAndIv(Some(iv), key));
    }
  }

  /** A V1 envelope under the legacy wrapping. */
  function EnvelopeV1(codec: Codec, blob: bytes, iv: bytes, stored: Dict): Dict {
    map["x-amz-key" := Text(codec.b64encode(blob)), "x-amz-wrap-alg" := Text("kms"),
        "x-amz-matdesc" := Text(codec.dumps(Object(stored))), "x-amz-iv" := Text(codec.b64encode(iv))]
  }

  /** An object without client headers whose instruction file holds a V1 envelope is accepted exactly
      when instruction files, legacy modes and legacy wrapping are on, the policy is not the strictest
      and the request has no context; then as CBC with that data key and the envelope's IV. */
  lemma EnvelopeV1IsRead(env: Env, cfg: GetConfig, headers: Headers, file: InstructionObject, request: Dict,
                         blob: bytes, key: bytes, iv: bytes, stored: Dict)
    requires env.codec.Lawful() && headers == map[] && IsAesKey(key) && |iv| == 16
    requires blob in env.kms && env.kms[blob] == Entry(stored, key)
    requires HasEnvelope(env.codec, file, EnvelopeV1(env.codec, blob, iv, stored))
    ensures var d := Decide(env, cfg, headers, Some(file), request);
            && (d.Ok? <==>
                  && !cfg.disableInstructionFile && !cfg.policy.RequireEncryptRequireDecrypt?
                  && cfg.legacyModes && cfg.legacyWrapping && request == map[])
            && (d.Ok? ==>
                  && d.value.format == V1 && d.value.dataKey == key
                  && d.value.spec == CbcSpec(Cbc(env.prim, key, iv)))
  {
    var m := ResolvesV1(env.codec, cfg, headers, file, blob, iv, stored);
    if !cfg.disableInstructionFile {
      DecisionV1(env, cfg, m, request, blob, key, iv, stored);
    }
  }

  lemma ResolvesV1(codec: Codec, cfg: GetConfig, headers: Headers, file: InstructionObject, blob: bytes, iv: bytes, stored: Dict)
    returns (m: ObjectMetadata)
    requires codec.Lawful() && headers == map[] && HasEnvelope(codec, file, EnvelopeV1(codec, blob, iv, stored))
    ensures FieldsV1(codec, m, blob, iv, stored)
    ensures ResolveMetadata(codec, cfg, headers, Some(file)) ==
            if cfg.disableInstructionFile then Err(InstructionFileDisabled) else Ok(m)
  {
    NamesV1(codec, blob, iv, stored);
    var h := ResolvesFromFile(codec, cfg, headers, file, EnvelopeV1(codec, blob, iv, stored));
    GetsV1(codec, h, headers, blob, iv, stored);
    m := FromDict(codec, h).value;
  }

  lemma NamesV1(codec: Codec, blob: bytes, iv: bytes, stored: Dict)
    ensures WholeEnvelope(EnvelopeV1(codec, blob, iv, stored))
  {
    assert "x-amz-key" in EnvelopeV1(codec, blob, iv, stored);
  }

  lemma GetsV1(codec: Codec, h: Headers, headers: Headers, blob: bytes, iv: bytes, stored: Dict)
    requires codec.Lawful() && headers == map[] && GetsFrom(h, headers, EnvelopeV1(codec, blob, iv, stored))
    ensures FromDict(codec, h).Ok? && FieldsV1(codec, FromDict(codec, h).value, blob, iv, stored)
  {
  }

  ghost predicate FieldsV1(codec: Codec, m: ObjectMetadata, blob: bytes, iv: bytes, stored: Dict) {
    && m.dataKeyV2 == Null && m.dataKeyV3 == Null
    && m.dataKeyV1 == Text(codec.b64encode(blob)) && m.wrapAlg == Text("kms") && m.context == Object(stored)
    && m.iv == Text(codec.b64encode(iv))
  }

  lemma DecisionV1(env: Env, cfg: GetConfig, m: ObjectMetadata, request: Dict, blob: bytes, key: bytes, iv: bytes, stored: Dict)
    requires env.codec.Lawful() && IsAesKey(key) && |iv| == 16
    requires blob in env.kms && env.kms[blob] == Entry(stored, key)
    requires FieldsV1(env.codec, m, blob, iv, stored)
    ensures var d := DecideOn(env, cfg, m, request);
            && (d.Ok? <==>
                  !cfg.policy.RequireEncryptRequireDecrypt? && cfg.legacyModes && cfg.legacyWrapping && request == map[])
            && (d.Ok? ==>
                  && d.value.format == V1 && d.value.dataKey == key
                  && d.value.spec == CbcSpec(Cbc(env.prim, key, iv)))
  {
    assert DetermineSuite(m) == Ok(AesCbcNoKdf) && FormatOf(m) == Ok(V1) && CheckFormat(m) == Ok(());
    assert CheckPolicy(cfg, AesCbcNoKdf).Ok? <==> cfg.legacyModes && !cfg.policy.RequireEncryptRequireDecrypt?;
    assert DataKeyOf(env, cfg, m, V1, request, AesCbcNoKdf).Ok? <==> cfg.legacyWrapping && request == map[];
    if cfg.legacyWrapping && request == map[] {
      assert DataKeyOf(env, cfg, m, V1, request, AesCbcNoKdf) == Ok(KeyAndIv(Some(iv), key));
    }
  }

  /** The part of a V3 envelope that is in the instruction file. */
  function EnvelopeV3(codec: Codec, blob: bytes, stored: Dict): Dict {
    map["x-amz-3" := Text(codec.b64encode(blob)), "x-amz-w" := Text("12"), "x-amz-t" := Text(codec.dumps(Object(stored)))]
  }

  /** The part that is on the object. */
  function ContentHeaders(codec: Codec, commitment: bytes, messageId: bytes): Headers {
    map[CipherV3 := Text("115"), CommitmentV3 := Text(codec.b64encode(commitment)), MessageIdV3 := Text(codec.b64encode(messageId))]
  }

  /** An object with V3 content headers whose instruction file holds the rest of a V3 envelope is
      accepted exactly when instruction files are on, the request has the data key's context, and the
      commitment is the one this data key and message id derive; then with the key derived along
      with it. */
  lemma EnvelopeV3IsRead(env: Env, cfg: GetConfig, file: InstructionObject, request: Dict,
                         blob: bytes, key: bytes, commitment: bytes, messageId: bytes, context: Dict)
    requires env.codec.Lawful()
    requires blob in env.kms && env.kms[blob] == Entry(BoundContext(context, AesGcmCommitKey), key)
    requires HasEnvelope(env.codec, file, EnvelopeV3(env.codec, blob, BoundContext(context, AesGcmCommitKey)))
    ensures var d := Decide(env, cfg, ContentHeaders(env.codec, commitment, messageId), Some(file), request);
            var derived := DeriveKeys(env.prim, key, messageId, AesGcmCommitKey);
            && (d.Ok? <==>
                  && !cfg.disableInstructionFile && request == WithoutReserved(context)
                  && |key| == 32 && commitment == derived.value.commitment)
            && (d.Ok? ==>
                  && d.value.format == V3 && d.value.dataKey == key
                  && d.value.spec == GcmSpec(Gcm(env.prim, derived.value.encryptionKey,
                                                 [1, 1, 1, 1, 1, 1, 1, 1, 1, 1, 1, 1], [0x00, 0x73])))
  {
    var m := ResolvesV3(env.codec, cfg, file, blob, commitment, messageId, BoundContext(context, AesGcmCommitKey));
    if !cfg.disableInstructionFile {
      DecisionV3(env, cfg, m, request, blob, key, commitment, messageId, context);
    }
  }

  lemma ResolvesV3(codec: Codec, cfg: GetConfig, file: InstructionObject, blob: bytes, commitment: bytes, messageId: bytes,
                   stored: Dict)
    returns (m: ObjectMetadata)
    requires codec.Lawful() && HasEnvelope(codec, file, EnvelopeV3(codec, blob, stored))
    ensures FieldsV3(codec, m, blob, commitment, messageId, stored)
    ensures ResolveMetadata(codec, cfg, ContentHeaders(codec, commitment, messageId), Some(file)) ==
            if cfg.disableInstructionFile then Err(InstructionFileDisabled) else Ok(m)
  {
    NamesV3(codec, blob, stored);
    var h := ResolvesFromFile(codec, cfg, ContentHeaders(codec, commitment, messageId), file, EnvelopeV3(codec, blob, stored));
    GetsV3(codec, h, blob, commitment, messageId, stored);
    m := FromDict(codec, h).value;
  }

  lemma NamesV3(codec: Codec, blob: bytes, stored: Dict)
    ensures WholeEnvelope(EnvelopeV3(codec, blob, stored))
  {
    assert "x-amz-3" in EnvelopeV3(codec, blob, stored);
  }

  lemma LookupsV3(codec: Codec, blob: bytes, stored: Dict)
    ensures var e := EnvelopeV3(codec, blob, stored);
            && Lookup(e, "x-amz-key") == Null && Lookup(e, "x-amz-key-v2") == Null && Lookup(e, "x-amz-matdesc") == Null
            && Lookup(e, "x-amz-3") == Text(codec.b64encode(blob)) && Lookup(e, "x-amz-w") == Text("12")
            && Lookup(e, "x-amz-t") == Text(codec.dumps(Object(stored)))
  {
  }

  lemma GetsV3(codec: Codec, h: Headers, blob: bytes, commitment: bytes, messageId: bytes, stored: Dict)
    requires codec.Lawful() && GetsFrom(h, ContentHeaders(codec, commitment, messageId), EnvelopeV3(codec, blob, stored))
    ensures FromDict(codec, h).Ok? && FieldsV3(codec, FromDict(codec, h).value, blob, commitment, messageId, stored)
  {
    LookupsV3(codec, blob, stored);
  }

  ghost predicate FieldsV3(codec: Codec, m: ObjectMetadata, blob: bytes, commitment: bytes, messageId: bytes, stored: Dict) {
    && m.dataKeyV1 == Null && m.dataKeyV2 == Null && m.cipherV3 == Text("115") && m.wrapAlgV3 == Text("12")
    && m.dataKeyV3 == Text(codec.b64encode(blob)) && m.contextV3 == Text(codec.dumps(Object(stored)))
    && m.commitmentV3 == Text(codec.b64encode(commitment)) && m.messageIdV3 == Text(codec.b64encode(messageId))
  }

  lemma DecisionV3(env: Env, cfg: GetConfig, m: ObjectMetadata, request: Dict, blob: bytes, key: bytes,
                   commitment: bytes, messageId: bytes, context: Dict)
    requires env.codec.Lawful()
    requires blob in env.kms && env.kms[blob] == Entry(BoundContext(context, AesGcmCommitKey), key)
    requires FieldsV3(env.codec, m, blob, commitment, messageId, BoundContext(context, AesGcmCommitKey))
    ensures var d := DecideOn(env, cfg, m, request);
            var derived := DeriveKeys(env.prim, key, messageId, AesGcmCommitKey);
            && (d.Ok? <==> request == WithoutReserved(context) && |key| == 32 && commitment == derived.value.commitment)
            && (d.Ok? ==>
                  && d.value.format == V3 && d.value.dataKey == key
                  && d.value.spec == GcmSpec(Gcm(env.prim, derived.value.encryptionKey,
                                                 [1, 1, 1, 1, 1, 1, 1, 1, 1, 1, 1, 1], [0x00, 0x73])))
  {
    var bound := BoundContext(context, AesGcmCommitKey);
    ContentCipherIdentifiesSuite("115", AesGcmCommitKey);
    UnwrapsExactlyAsBound(env.kms, cfg.legacyWrapping, blob, context, AesGcmCommitKey, Object(bound), request, AesGcmCommitKey);
    assert DetermineSuite(m) == Ok(AesGcmCommitKey) && FormatOf(m) == Ok(V3) && CheckFormat(m) == Ok(());
    assert CheckPolicy(cfg, AesGcmCommitKey) == Ok(());
    assert V3Wrapping(m.wrapAlgV3) == Ok(KMS_CONTEXT) && V3Context(env.codec, m.contextV3) == Ok(Object(bound));
    assert DataKeyOf(env, cfg, m, V3, request, AesGcmCommitKey).Ok? <==> request == WithoutReserved(context);
    if request == WithoutReserved(context) {
      assert DataKeyOf(env, cfg, m, V3, request, AesGcmCommitKey) == Ok(KeyAndIv(None, key));
      assert CipherOf(env, m, AesGcmCommitKey, KeyAndIv(None, key)) == VerifyAndDerive(env.prim, key, messageId, commitment);
    }
  }
}
