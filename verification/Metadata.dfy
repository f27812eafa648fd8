/** Object metadata: the S3 headers that say how an object was encrypted. */
module Metadata {
  import opened Wrappers
  import opened AesGcm

  /** A JSON value as Python sees it; `Null` is None, which a missing key also reads as. Other
      kinds (numbers, booleans, lists) matter only by their truth value. */
  datatype Value = Null | Text(text: string) | Object(entries: Dict) | Other(tag: int, truthy: bool) {
    predicate Truthy() {
      match this
      case Null => false
      case Text(s) => s != ""
      case Object(m) => m != map[]
      case Other(_, t) => t
    }
  }

  type Dict = map<string, Value>

  function Lookup(d: Dict, key: string): Value {
    if key in d then d[key] else Null
  }

  /** The header names the client owns. */
  datatype Header =
    | DataKeyV1            // x-amz-key
    | DataKeyV2            // x-amz-key-v2
    | WrapAlg              // x-amz-wrap-alg
    | MatDesc              // x-amz-matdesc
    | Iv                   // x-amz-iv
    | CekAlg               // x-amz-cek-alg
    | TagLen               // x-amz-tag-len
    | InstructionMarker    // x-amz-crypto-instr-file
    | CipherV3             // x-amz-c
    | DataKeyV3            // x-amz-3
    | MatDescV3            // x-amz-m
    | ContextV3            // x-amz-t
    | WrapAlgV3            // x-amz-w
    | CommitmentV3         // x-amz-d
    | MessageIdV3          // x-amz-i

  /** The part of a metadata dictionary that is under these names; other entries are never read. */
  type Headers = map<Header, Value>

  function Get(h: Headers, key: Header): Value {
    if key in h then h[key] else Null
  }

  /** S3 object metadata is text. */
  function TextHeaders(h: map<Header, string>): Headers {
    map key | key in h :: Text(h[key])
  }

  /** Text encodings, as codecs with their inverses. */
  datatype Codec = Codec(
    dumps: Value -> string, loads: string -> Option<Value>,
    b64encode: bytes -> string, b64decode: string -> Option<bytes>)
  {
    ghost predicate Lawful() {
      && (forall v :: loads(dumps(v)) == Some(v))
      && (forall b :: b64decode(b64encode(b)) == Some(b))
    }

    /** json.loads of a header value: raises on anything but well-formed text. */
    function LoadsValue(v: Value): Result<Value, MetadataError> {
      if v.Text? && loads(v.text).Some? then Ok(loads(v.text).value) else Err(BadJson)
    }

    /** base64.b64decode of a header value. */
    function Base64Value(v: Value): Result<bytes, MetadataError> {
      if v.Text? && b64decode(v.text).Some? then Ok(b64decode(v.text).value) else Err(BadBase64)
    }
  }

  datatype MetadataError = BadJson | BadBase64

  datatype ObjectMetadata = ObjectMetadata(
    dataKeyV1: Value, dataKeyV2: Value, wrapAlg: Value, context: Value, iv: Value, cekAlg: Value,
    tagLen: Value, instructionFile: Value, cipherV3: Value, dataKeyV3: Value, matDescV3: Value,
    contextV3: Value, wrapAlgV3: Value, commitmentV3: Value, messageIdV3: Value)
  {
    predicate IsV1() {
      && iv != Null && context != Null && dataKeyV1 != Null
      && dataKeyV2 == Null
    }

    predicate IsV2() {
      && cekAlg != Null && iv != Null && wrapAlg != Null && dataKeyV2 != Null
      && dataKeyV1 == Null
    }

    predicate IsV3() {
      && cipherV3 != Null && wrapAlgV3 != Null && commitmentV3 != Null && messageIdV3 != Null && dataKeyV3 != Null
      && dataKeyV2 == Null && dataKeyV1 == Null
    }

    predicate HasExclusiveKeyCollision() {
      (if dataKeyV1 != Null then 1 else 0) + (if dataKeyV2 != Null then 1 else 0)
      + (if dataKeyV3 != Null then 1 else 0) > 1
    }

    predicate IsV3InObjectMetadata() {
      cipherV3 != Null && commitmentV3 != Null && messageIdV3 != Null && dataKeyV3 == Null
    }

    predicate ShouldUseInstructionFile() {
      IsV3InObjectMetadata() || (dataKeyV1 == Null && dataKeyV2 == Null && dataKeyV3 == Null)
    }
  }

  /** A new metadata object: nothing set but the tag length. */
  const BLANK := ObjectMetadata(Null, Null, Null, Null, Null, Null, Text("128"), Null, Null, Null, Null, Null, Null, Null, Null)

  function FromDict(codec: Codec, h: Headers): Result<ObjectMetadata, MetadataError> {
    var context :- if Get(h, MatDesc) == Null then Ok(Null) else codec.LoadsValue(Get(h, MatDesc));
    Ok(ObjectMetadata(
         Get(h, DataKeyV1), Get(h, DataKeyV2), Get(h, WrapAlg), context, Get(h, Iv), Get(h, CekAlg),
         Get(h, TagLen), Get(h, InstructionMarker), Get(h, CipherV3), Get(h, DataKeyV3), Get(h, MatDescV3),
         Get(h, ContextV3), Get(h, WrapAlgV3), Get(h, CommitmentV3), Get(h, MessageIdV3)))
  }

  /** A dictionary-valued field is stored as JSON text, anything else as it is. */
  function Serialized(codec: Codec, v: Value): Value {
    if v.Object? then Text(codec.dumps(v)) else v
  }

  /** What is written under each header; `Null` where nothing is. */
  function Field(codec: Codec, m: ObjectMetadata, key: Header): Value {
    match key
    case DataKeyV1 => m.dataKeyV1
    case DataKeyV2 => m.dataKeyV2
    case WrapAlg => m.wrapAlg
    case MatDesc => if m.context == Null then Null else Text(codec.dumps(m.context))
    case Iv => m.iv
    case CekAlg => m.cekAlg
    case TagLen => if m.IsV3() then Null else m.tagLen
    case InstructionMarker => m.instructionFile
    case CipherV3 => m.cipherV3
    case DataKeyV3 => m.dataKeyV3
    case MatDescV3 => Serialized(codec, m.matDescV3)
    case ContextV3 => Serialized(codec, m.contextV3)
    case WrapAlgV3 => m.wrapAlgV3
    case CommitmentV3 => m.commitmentV3
    case MessageIdV3 => m.messageIdV3
  }

  /** The headers of an object: each field that is set, under its name. */
  function Dictionary(codec: Codec, m: ObjectMetadata): Headers {
    map key: Header | Field(codec, m, key) != Null :: Field(codec, m, key)
  }

  lemma GetDictionary(codec: Codec, m: ObjectMetadata, key: Header)
    ensures Get(Dictionary(codec, m), key) == Field(codec, m, key)
  {
  }

  ghost predicate NoNulls(h: Headers) {
    forall k :: k in h ==> h[k] != Null
  }

  /** The order in which to_dict looks at the fields. */
  function Rank(key: Header): nat {
    match key
    case DataKeyV1 => 0 case DataKeyV2 => 1 case WrapAlg => 2 case MatDesc => 3 case Iv => 4
    case CekAlg => 5 case TagLen => 6 case InstructionMarker => 7 case CipherV3 => 8 case DataKeyV3 => 9
    case MatDescV3 => 10 case ContextV3 => 11 case WrapAlgV3 => 12 case CommitmentV3 => 13 case MessageIdV3 => 14
  }

  /** The dictionary after the first `n` fields. */
  ghost predicate Filled(codec: Codec, m: ObjectMetadata, h: Headers, n: nat) {
    NoNulls(h) && forall key {:trigger Get(h, key)} :: Get(h, key) == if Rank(key) < n then Field(codec, m, key) else Null
  }

  /** Store a field that is set: `if v is not None: h[key] = v`. */
  method Store(codec: Codec, ghost m: ObjectMetadata, h: Headers, key: Header, v: Value) returns (r: Headers)
    requires Filled(codec, m, h, Rank(key)) && v == Field(codec, m, key)
    ensures Filled(codec, m, r, Rank(key) + 1)
  {
    r := h;
    if v != Null {
      r := r[key := v];
    }
    forall k: Header
      ensures Get(r, k) == if Rank(k) < Rank(key) + 1 then Field(codec, m, k) else Null
    {
      if Rank(k) == Rank(key) {
        RankInjective(k, key);
      }
      assert Get(h, k) == if Rank(k) < Rank(key) then Field(codec, m, k) else Null;
    }
  }

  lemma RankInjective(a: Header, b: Header)
    requires Rank(a) == Rank(b)
    ensures a == b
  {
  }

  /** to_dict, filling a dictionary step by step. */
  method ToDict(codec: Codec, m: ObjectMetadata) returns (result: Headers)
    ensures result == Dictionary(codec, m)
  {
    result := map[];
    result := StoreKeyFields(codec, m, result);
    result := StoreContentFields(codec, m, result);
    result := StoreV3Fields(codec, m, result);
    FieldsDetermineDictionary(codec, m, result);
  }

  method StoreKeyFields(codec: Codec, m: ObjectMetadata, h: Headers) returns (result: Headers)
    requires Filled(codec, m, h, 0)
    ensures Filled(codec, m, result, 5)
  {
    result := Store(codec, m, h, DataKeyV1, m.dataKeyV1);
    result := Store(codec, m, result, DataKeyV2, m.dataKeyV2);
    result := Store(codec, m, result, WrapAlg, m.wrapAlg);
    result := Store(codec, m, result, MatDesc, if m.context == Null then Null else Text(codec.dumps(m.context)));
    result := Store(codec, m, result, Iv, m.iv);
  }

  method StoreContentFields(codec: Codec, m: ObjectMetadata, h: Headers) returns (result: Headers)
    requires Filled(codec, m, h, 5)
    ensures Filled(codec, m, result, 10)
  {
    result := Store(codec, m, h, CekAlg, m.cekAlg);
    result := Store(codec, m, result, TagLen, if m.IsV3() then Null else m.tagLen);
    result := Store(codec, m, result, InstructionMarker, m.instructionFile);
    result := Store(codec, m, result, CipherV3, m.cipherV3);
    result := Store(codec, m, result, DataKeyV3, m.dataKeyV3);
  }

  method StoreV3Fields(codec: Codec, m: ObjectMetadata, h: Headers) returns (result: Headers)
    requires Filled(codec, m, h, 10)
    ensures Filled(codec, m, result, 15)
  {
    result := Store(codec, m, h, MatDescV3, Serialized(codec, m.matDescV3));
    result := Store(codec, m, result, ContextV3, Serialized(codec, m.contextV3));
    result := Store(codec, m, result, WrapAlgV3, m.wrapAlgV3);
    result := Store(codec, m, result, CommitmentV3, m.commitmentV3);
    result := Store(codec, m, result, MessageIdV3, m.messageIdV3);
  }

  lemma FieldsDetermineDictionary(codec: Codec, m: ObjectMetadata, h: Headers)
    requires Filled(codec, m, h, 15)
    ensures h == Dictionary(codec, m)
  {
    forall key: Header
      ensures Get(h, key) == Get(Dictionary(codec, m), key)
    {
      GetDictionary(codec, m, key);
    }
    SameGets(h, Dictionary(codec, m));
  }

  lemma SameGets(a: Headers, b: Headers)
    requires NoNulls(a) && NoNulls(b) && forall key :: Get(a, key) == Get(b, key)
    ensures a == b
  {
    forall key: Header
      ensures key in a <==> key in b
      ensures key in a ==> a[key] == b[key]
    {
      assert Get(a, key) == Get(b, key);
    }
  }

  /** What writing and reading back makes of a metadata object. */
  function Normalize(codec: Codec, m: ObjectMetadata): ObjectMetadata {
    m.(tagLen := if m.IsV3() then Null else m.tagLen,
       matDescV3 := Serialized(codec, m.matDescV3),
       contextV3 := Serialized(codec, m.contextV3))
  }

  lemma NormalizeKeepsFormat(codec: Codec, m: ObjectMetadata)
    ensures var n := Normalize(codec, m);
            (n.IsV1() <==> m.IsV1()) && (n.IsV2() <==> m.IsV2()) && (n.IsV3() <==> m.IsV3())
  {
  }

  lemma NormalizeKeepsField(codec: Codec, m: ObjectMetadata, key: Header)
    ensures Field(codec, Normalize(codec, m), key) == Field(codec, m, key)
  {
    NormalizeKeepsFormat(codec, m);
  }

  /** The headers hold these fields. */
  ghost predicate HoldsV1V2(codec: Codec, m: ObjectMetadata, h: Headers) {
    && Get(h, DataKeyV1) == m.dataKeyV1 && Get(h, DataKeyV2) == m.dataKeyV2 && Get(h, WrapAlg) == m.wrapAlg
    && Get(h, MatDesc) == (if m.context == Null then Null else Text(codec.dumps(m.context)))
    && Get(h, Iv) == m.iv && Get(h, CekAlg) == m.cekAlg && Get(h, InstructionMarker) == m.instructionFile
    && Get(h, TagLen) == if m.IsV3() then Null else m.tagLen
  }

  ghost predicate HoldsV3(codec: Codec, m: ObjectMetadata, h: Headers) {
    && Get(h, CipherV3) == m.cipherV3 && Get(h, DataKeyV3) == m.dataKeyV3
    && Get(h, MatDescV3) == Serialized(codec, m.matDescV3) && Get(h, ContextV3) == Serialized(codec, m.contextV3)
    && Get(h, WrapAlgV3) == m.wrapAlgV3 && Get(h, CommitmentV3) == m.commitmentV3 && Get(h, MessageIdV3) == m.messageIdV3
  }

  lemma DictionaryHoldsV1V2(codec: Codec, m: ObjectMetadata)
    ensures HoldsV1V2(codec, m, Dictionary(codec, m))
  {
  }

  lemma DictionaryHoldsV3(codec: Codec, m: ObjectMetadata)
    ensures HoldsV3(codec, m, Dictionary(codec, m))
  {
  }

  lemma DictionaryHolds(codec: Codec, m: ObjectMetadata)
    ensures HoldsV1V2(codec, m, Dictionary(codec, m)) && HoldsV3(codec, m, Dictionary(codec, m))
  {
    DictionaryHoldsV1V2(codec, m);
    DictionaryHoldsV3(codec, m);
  }

  lemma ReadFields(codec: Codec, m: ObjectMetadata, h: Headers)
    requires codec.Lawful() && HoldsV1V2(codec, m, h) && HoldsV3(codec, m, h)
    ensures FromDict(codec, h) == Ok(Normalize(codec, m))
  {
  }

  /** Reading back what was written gives the normal form, which is written the same way again
      and has the same format; it is the object itself exactly when nothing is normalised away. */
  lemma WriteReadNormalizes(codec: Codec, m: ObjectMetadata)
    requires codec.Lawful()
    ensures FromDict(codec, Dictionary(codec, m)) == Ok(Normalize(codec, m))
    ensures Dictionary(codec, Normalize(codec, m)) == Dictionary(codec, m)
    ensures var n := Normalize(codec, m);
            (n.IsV1() <==> m.IsV1()) && (n.IsV2() <==> m.IsV2()) && (n.IsV3() <==> m.IsV3())
    ensures Normalize(codec, m) == m <==>
            (m.IsV3() ==> m.tagLen == Null) && !m.matDescV3.Object? && !m.contextV3.Object?
  {
    var n := Normalize(codec, m);
    DictionaryHolds(codec, m);
    ReadFields(codec, m, Dictionary(codec, m));
    NormalizeKeepsFormat(codec, m);
    forall key: Header
      ensures Field(codec, n, key) == Field(codec, m, key)
    {
      NormalizeKeepsField(codec, m, key);
    }
  }

  /** No metadata has two formats, and one that has any needs no instruction file. */
  lemma FormatsExclude(m: ObjectMetadata)
    ensures !(m.IsV1() && m.IsV2()) && !(m.IsV1() && m.IsV3()) && !(m.IsV2() && m.IsV3())
    ensures m.IsV3() ==> !m.ShouldUseInstructionFile()
    ensures (m.IsV1() || m.IsV2()) && !m.IsV3InObjectMetadata() ==> !m.ShouldUseInstructionFile()
  {
  }
}
