/** One multipart upload: parts encrypted in sequence by one cipher, with a retry cache. */
module Multipart {
  import opened Wrappers
  import opened AesGcm
  import opened Chunks
  import opened Metadata

  /** What an upload amounts to: the plaintext of its accepted parts, and whether the last of
      them was marked final. */
  datatype Upload = Upload(parts: seq<bytes>, final: bool)

  const NEW := Upload([], false)

  datatype PartError = AfterFinalPart | OutOfSequence(expected: nat)

  /** The k-th ciphertext (from 0): the slice of one encryption of the whole plaintext that
      covers part k, and the tag of the whole at the end. */
  function Ciphertext(gcm: Gcm, u: Upload, k: nat): bytes
    requires k < |u.parts|
  {
    gcm.Mask(Offset(u.parts, k), u.parts[k]) + TagAfter(gcm, u, k + 1)
  }

  /** What follows the ciphertext of the first k parts: the tag, after the last of them. */
  function TagAfter(gcm: Gcm, u: Upload, k: nat): bytes {
    if u.final && k == |u.parts| then gcm.Tag(gcm.Mask(0, Concat(u.parts))) else []
  }

  function Ciphertexts(gcm: Gcm, u: Upload): seq<bytes> {
    seq(|u.parts|, k requires 0 <= k < |u.parts| => Ciphertext(gcm, u, k))
  }

  /** One call of encrypt_part, without cipher state or cache. The number of the latest part is
      a retry; `None` is what the source returns for number 0 before any part. */
  function Submit(gcm: Gcm, u: Upload, number: int, data: bytes, isLast: bool)
    : (Upload, Result<Option<bytes>, PartError>)
  {
    if number == |u.parts| then
      (u, Ok(if number == 0 then None else Some(Ciphertext(gcm, u, number - 1))))
    else if u.final then
      (u, Err(AfterFinalPart))
    else if number != |u.parts| + 1 then
      (u, Err(OutOfSequence(|u.parts| + 1)))
    else
      var u' := Upload(u.parts + [data], isLast);
      (u', Ok(Some(Ciphertext(gcm, u', |u.parts|))))
  }

  ghost predicate WellFormed(u: Upload) {
    u.final ==> u.parts != []
  }

  /** What one result may be, given the upload at the end of the run. */
  ghost predicate Explained(gcm: Gcm, u: Upload, number: int, r: Result<Option<bytes>, PartError>) {
    r.Ok? ==>
      match r.value
      case Some(ciphertext) => 1 <= number <= |u.parts| && ciphertext == Ciphertext(gcm, u, number - 1)
      case None => number == 0
  }

  // ---- The library's GCM encryption context, as a value ----

  /** One use of the keystream: a plaintext byte enciphered at a position. */
  datatype Use = Use(position: nat, byte: bv8)

  function Uses(plaintext: bytes): seq<Use> {
    seq(|plaintext|, i requires 0 <= i < |plaintext| => Use(i, plaintext[i]))
  }

  /** `used` records every byte ever enciphered; the cipher goes on at the position after it. */
  datatype GcmEncryptor = GcmEncryptor(gcm: Gcm, used: seq<Use>, sent: bytes, finalized: bool) {
    function Encipher(uses: seq<Use>): bytes {
      seq(|uses|, i requires 0 <= i < |uses| =>
        uses[i].byte ^ gcm.prim.keystream(gcm.key, gcm.iv, uses[i].position))
    }

    function Update(data: bytes): (GcmEncryptor, bytes) {
      var uses := seq(|data|, i requires 0 <= i < |data| => Use(|used| + i, data[i]));
      var out := Encipher(uses);
      (this.(used := used + uses, sent := sent + out), out)
    }

    function Finalize(): GcmEncryptor {
      this.(finalized := true)
    }

    function Tag(): bytes {
      gcm.Tag(sent)
    }

    /** This plaintext was enciphered, each byte once, from position 0 on. */
    ghost predicate Enciphered(plaintext: bytes) {
      used == Uses(plaintext) && sent == gcm.Mask(0, plaintext)
    }

    lemma UpdateEnciphers(plaintext: bytes, data: bytes)
      requires Enciphered(plaintext)
      ensures var (next, out) := Update(data);
              && next.Enciphered(plaintext + data) && next.gcm == gcm && next.finalized == finalized
              && out == gcm.Mask(|plaintext|, data)
    {
      var (next, out) := Update(data);
      assert out == gcm.Mask(|plaintext|, data);
      gcm.MaskConcat(0, plaintext, data);
      assert next.used == Uses(plaintext + data);
    }
  }

  // ---- One pipeline, statement by statement ----

  /** A pipeline's fields, and the upload they amount to. */
  datatype PipelineState = PipelineState(
    encryptor: GcmEncryptor, nextPart: nat, hasFinalPartBeenSeen: bool,
    lastEncryptedPart: int, lastEncryptedCiphertext: Option<bytes>, upload: Upload)

  function NewPipeline(gcm: Gcm): PipelineState {
    PipelineState(GcmEncryptor(gcm, [], [], false), 1, false, 0, None, NEW)
  }

  datatype PartCall = PartCall(number: int, data: bytes, isLast: bool)

  /** Where a call stands while it holds the pipeline's lock. */
  datatype Section =
    | Entered                       // nothing done yet
    | Advanced                      // accepted, part counter moved on
    | Ciphered(out: bytes)          // last part enciphered, tag to come
    | Tagged(out: bytes)            // tag appended, flag to come
    | Caching(out: bytes)           // all done but the cache
    | HalfCached(out: bytes)        // part number cached, ciphertext to come
    | Leaving(result: Result<Option<bytes>, PartError>)
  {
    function Rank(): nat {
      match this
      case Entered => 6 case Advanced => 5 case Ciphered(_) => 4 case Tagged(_) => 3
      case Caching(_) => 2 case HalfCached(_) => 1 case Leaving(_) => 0
    }
  }

  /** The next statement of the locked section. A part counts as accepted once it is enciphered,
      the last one once its tag is. */
  function SectionStep(p: PipelineState, c: PartCall, at: Section): (r: (PipelineState, Section))
    ensures !at.Leaving? ==> r.1.Rank() < at.Rank()
  {
    match at
    case Entered =>
      if c.number == p.lastEncryptedPart then (p, Leaving(Ok(p.lastEncryptedCiphertext)))
      else if p.hasFinalPartBeenSeen then (p, Leaving(Err(AfterFinalPart)))
      else if c.number != p.nextPart then (p, Leaving(Err(OutOfSequence(p.nextPart))))
      else (p.(nextPart := p.nextPart + 1), Advanced)
    case Advanced =>
      var (next, out) := p.encryptor.Update(c.data);
      if c.isLast then (p.(encryptor := next), Ciphered(out))
      else (p.(encryptor := next, upload := Upload(p.upload.parts + [c.data], false)), Caching(out))
    case Ciphered(out) =>
      (p.(encryptor := p.encryptor.Finalize(), upload := Upload(p.upload.parts + [c.data], true)),
       Tagged(out + p.encryptor.Tag()))
    case Tagged(out) => (p.(hasFinalPartBeenSeen := true), Caching(out))
    case Caching(out) => (p.(lastEncryptedPart := c.number), HalfCached(out))
    case HalfCached(out) => (p.(lastEncryptedCiphertext := Some(out)), Leaving(Ok(Some(out))))
    case Leaving(_) => (p, at)
  }

  /** The rest of the section, undisturbed. */
  function RunSection(p: PipelineState, c: PartCall, at: Section): (PipelineState, Result<Option<bytes>, PartError>)
    decreases at.Rank()
  {
    if at.Leaving? then
      (p, at.result)
    else
      var (p', at') := SectionStep(p, c, at);
      RunSection(p', c, at')
  }

  /** The cache holds the ciphertext of part n, which is an accepted one. */
  ghost predicate CacheHolds(gcm: Gcm, p: PipelineState, n: nat) {
    && n <= |p.upload.parts|
    && p.lastEncryptedPart == n
    && p.lastEncryptedCiphertext == if n == 0 then None else Some(Ciphertext(gcm, p.upload, n - 1))
  }

  /** The cipher was given this plaintext, and is closed exactly after a final part. */
  ghost predicate CipherHolds(gcm: Gcm, p: PipelineState, plaintext: bytes) {
    && p.encryptor.gcm == gcm
    && p.encryptor.Enciphered(plaintext)
    && p.encryptor.finalized == p.upload.final
    && WellFormed(p.upload)
  }

  /** The fields between calls. */
  ghost predicate Settled(gcm: Gcm, p: PipelineState) {
    && CipherHolds(gcm, p, Concat(p.upload.parts))
    && p.nextPart == |p.upload.parts| + 1
    && p.hasFinalPartBeenSeen == p.upload.final
    && CacheHolds(gcm, p, |p.upload.parts|)
  }

  /** Part `c.number` is about to be added, and `plaintext` is already enciphered. */
  ghost predicate Adding(gcm: Gcm, p: PipelineState, c: PartCall, plaintext: bytes) {
    && CipherHolds(gcm, p, plaintext)
    && c.number == |p.upload.parts| + 1 && p.nextPart == |p.upload.parts| + 2
    && !p.hasFinalPartBeenSeen && !p.upload.final
    && CacheHolds(gcm, p, |p.upload.parts|)
  }

  /** Part `c.number` was added, and `out` is its ciphertext. */
  ghost predicate Added(gcm: Gcm, p: PipelineState, c: PartCall, out: bytes) {
    && CipherHolds(gcm, p, Concat(p.upload.parts))
    && c.number == |p.upload.parts| > 0 && p.nextPart == |p.upload.parts| + 1
    && out == Ciphertext(gcm, p.upload, c.number - 1)
  }

  /** The fields while a call is in its section. */
  ghost predicate Midway(gcm: Gcm, p: PipelineState, c: PartCall, at: Section) {
    match at
    case Entered => Settled(gcm, p)
    case Advanced => Adding(gcm, p, c, Concat(p.upload.parts))
    case Ciphered(out) =>
      && Adding(gcm, p, c, Concat(p.upload.parts) + c.data)
      && c.isLast && out == gcm.Mask(|Concat(p.upload.parts)|, c.data)
    case Tagged(out) =>
      Added(gcm, p, c, out) && p.upload.final && !p.hasFinalPartBeenSeen && CacheHolds(gcm, p, c.number - 1)
    case Caching(out) =>
      Added(gcm, p, c, out) && p.hasFinalPartBeenSeen == p.upload.final && CacheHolds(gcm, p, c.number - 1)
    case HalfCached(out) =>
      Added(gcm, p, c, out) && p.hasFinalPartBeenSeen == p.upload.final && p.lastEncryptedPart == c.number
    case Leaving(result) => Settled(gcm, p) && Explained(gcm, p.upload, c.number, result)
  }

  /** How a pipeline may differ later: ciphertexts so far stay, and after the final part neither
      the upload nor the cipher changes any more. */
  ghost predicate Extends(gcm: Gcm, p: PipelineState, p': PipelineState) {
    && Ciphertexts(gcm, p.upload) <= Ciphertexts(gcm, p'.upload)
    && (p.upload.final ==> p'.upload == p.upload && p'.encryptor == p.encryptor)
    && (p.hasFinalPartBeenSeen ==> p'.hasFinalPartBeenSeen)
  }

  lemma AppendKeepsCiphertexts(gcm: Gcm, u: Upload, data: bytes, isLast: bool)
    requires !u.final
    ensures var u' := Upload(u.parts + [data], isLast);
            && Ciphertexts(gcm, u) <= Ciphertexts(gcm, u')
            && (forall k :: 0 <= k < |u.parts| ==> Ciphertext(gcm, u', k) == Ciphertext(gcm, u, k))
            && Concat(u'.parts) == Concat(u.parts) + data
            && Ciphertext(gcm, u', |u.parts|) == gcm.Mask(|Concat(u.parts)|, data) + TagAfter(gcm, u', |u'.parts|)
  {
    var u' := Upload(u.parts + [data], isLast);
    assert u'.parts[..|u.parts|] == u.parts;
    forall k | 0 <= k < |u.parts|
      ensures Ciphertext(gcm, u', k) == Ciphertext(gcm, u, k)
    {
      assert u'.parts[..k] == u.parts[..k];
    }
  }

  lemma CiphertextsKept(gcm: Gcm, u: Upload, data: bytes, isLast: bool)
    requires !u.final
    ensures Ciphertexts(gcm, u) <= Ciphertexts(gcm, Upload(u.parts + [data], isLast))
  {
    AppendKeepsCiphertexts(gcm, u, data, isLast);
  }

  lemma EnterKeeps(gcm: Gcm, p: PipelineState, c: PartCall)
    requires Settled(gcm, p)
    ensures var (p', at') := SectionStep(p, c, Entered); Midway(gcm, p', c, at') && Extends(gcm, p, p')
  {
  }

  lemma AdvancedKeeps(gcm: Gcm, p: PipelineState, c: PartCall)
    requires Adding(gcm, p, c, Concat(p.upload.parts))
    ensures var (p', at') := SectionStep(p, c, Advanced); Midway(gcm, p', c, at') && Extends(gcm, p, p')
  {
    var plaintext := Concat(p.upload.parts);
    p.encryptor.UpdateEnciphers(plaintext, c.data);
    AppendKeepsCiphertexts(gcm, p.upload, c.data, false);
    var out := p.encryptor.Update(c.data).1;
    assert out + [] == out;
  }

  lemma CipheredKeeps(gcm: Gcm, p: PipelineState, c: PartCall, out: bytes)
    requires Midway(gcm, p, c, Ciphered(out))
    ensures var (p', at') := SectionStep(p, c, Ciphered(out)); Midway(gcm, p', c, at') && Extends(gcm, p, p')
  {
    AppendKeepsCiphertexts(gcm, p.upload, c.data, true);
  }

  /** Every statement of the section keeps the fields in order, whatever was read meanwhile. */
  lemma SectionStepKeeps(gcm: Gcm, p: PipelineState, c: PartCall, at: Section)
    requires Midway(gcm, p, c, at)
    ensures var (p', at') := SectionStep(p, c, at); Midway(gcm, p', c, at') && Extends(gcm, p, p')
  {
    match at
    case Entered => EnterKeeps(gcm, p, c);
    case Advanced => AdvancedKeeps(gcm, p, c);
    case Ciphered(out) => CipheredKeeps(gcm, p, c, out);
    case _ =>
  }

  /** At every moment: once the flag can be seen, the tag of the whole plaintext was computed. */
  lemma FlagMeansTagged(gcm: Gcm, p: PipelineState, c: PartCall, at: Section)
    requires Midway(gcm, p, c, at) && p.hasFinalPartBeenSeen
    ensures p.upload.final && p.encryptor.finalized && p.encryptor.Enciphered(Concat(p.upload.parts))
  {
  }

  /** The whole section, run without interruption, is `Submit`. */
  lemma SectionIsSubmit(gcm: Gcm, p: PipelineState, c: PartCall)
    requires Settled(gcm, p)
    ensures var (p', r) := RunSection(p, c, Entered);
            Settled(gcm, p') && (p'.upload, r) == Submit(gcm, p.upload, c.number, c.data, c.isLast)
  {
    var (p1, at1) := SectionStep(p, c, Entered);
    EnterKeeps(gcm, p, c);
    if at1.Advanced? {
      AcceptedSection(gcm, p1, c);
      assert RunSection(p, c, Entered) == RunSection(p1, c, Advanced);
    } else {
      RefusedSection(gcm, p, c);
    }
  }

  /** A retry, or a part that is not accepted, changes nothing. */
  lemma RefusedSection(gcm: Gcm, p: PipelineState, c: PartCall)
    requires Settled(gcm, p) && !SectionStep(p, c, Entered).1.Advanced?
    ensures RunSection(p, c, Entered).0 == p
    ensures (p.upload, RunSection(p, c, Entered).1) == Submit(gcm, p.upload, c.number, c.data, c.isLast)
  {
    var (p1, at1) := SectionStep(p, c, Entered);
    assert RunSection(p, c, Entered) == RunSection(p1, c, at1) == (p, at1.result);
  }

  lemma AcceptedSection(gcm: Gcm, p: PipelineState, c: PartCall)
    requires Adding(gcm, p, c, Concat(p.upload.parts))
    ensures var (p', r) := RunSection(p, c, Advanced);
            && Settled(gcm, p') && p'.upload == Upload(p.upload.parts + [c.data], c.isLast)
            && r == Ok(Some(Ciphertext(gcm, p'.upload, |p.upload.parts|)))
  {
    var (p2, at2) := SectionStep(p, c, Advanced);
    AdvancedKeeps(gcm, p, c);
    if c.isLast {
      var (p3, at3) := SectionStep(p2, c, at2);
      CipheredKeeps(gcm, p2, c, at2.out);
      var (p4, at4) := SectionStep(p3, c, at3);
      assert Midway(gcm, p4, c, at4);
      CachedSection(gcm, p4, c, at4.out);
    } else {
      CachedSection(gcm, p2, c, at2.out);
    }
  }

  lemma CachedSection(gcm: Gcm, p: PipelineState, c: PartCall, out: bytes)
    requires Midway(gcm, p, c, Caching(out))
    ensures var (p', r) := RunSection(p, c, Caching(out));
            Settled(gcm, p') && p'.upload == p.upload && r == Ok(Some(out))
  {
    var (p1, at1) := SectionStep(p, c, Caching(out));
    var (p2, at2) := SectionStep(p1, c, at1);
    assert at2 == Leaving(Ok(Some(out)));
    assert RunSection(p1, c, at1) == RunSection(p2, c, at2) == (p2, Ok(Some(out)));
  }

  class MultipartUploadPipeline {
    var encryptor: GcmEncryptor
    const metadata: Headers
    var nextPart: nat
    var hasFinalPartBeenSeen: bool
    var lastEncryptedPart: int
    var lastEncryptedCiphertext: Option<bytes>
    ghost const gcm: Gcm
    ghost var upload: Upload

    ghost function State(): PipelineState
      reads this
    {
      PipelineState(encryptor, nextPart, hasFinalPartBeenSeen, lastEncryptedPart, lastEncryptedCiphertext, upload)
    }

    ghost predicate Valid()
      reads this
    {
      Settled(gcm, State())
    }

    constructor (gcm: Gcm, metadata: Headers)
      ensures Valid() && State() == NewPipeline(gcm) && this.gcm == gcm && this.metadata == metadata
    {
      this.encryptor := GcmEncryptor(gcm, [], [], false);
      this.metadata := metadata;
      this.nextPart := 1;
      this.hasFinalPartBeenSeen := false;
      this.lastEncryptedPart := 0;
      this.lastEncryptedCiphertext := None;
      this.gcm := gcm;
      this.upload := NEW;
    }

    /** The locked section; every statement is the next step of it. */
    method EncryptPart(partNumber: int, data: bytes, isLast: bool) returns (r: Result<Option<bytes>, PartError>)
      requires Valid()
      modifies this
      ensures Valid()
      ensures (State(), r) == RunSection(old(State()), PartCall(partNumber, data, isLast), Entered)
      ensures (upload, r) == Submit(gcm, old(upload), partNumber, data, isLast)
    {
      ghost var call := PartCall(partNumber, data, isLast);
      SectionIsSubmit(gcm, State(), call);
      if partNumber == lastEncryptedPart {
        return Ok(lastEncryptedCiphertext);
      }
      if hasFinalPartBeenSeen {
        return Err(AfterFinalPart);
      }
      if partNumber != nextPart {
        return Err(OutOfSequence(nextPart));
      }
      ghost var p := State();
      nextPart := nextPart + 1;
      ghost var at := NextStep(p, call, Entered);
      var ciphertext := Encipher(data, isLast, call, at);
      r := Cache(partNumber, ciphertext, call);
    }

    /** Encipher the data; for the last part append the tag, and only then set the flag. */
    method Encipher(data: bytes, isLast: bool, ghost call: PartCall, ghost at: Section) returns (ciphertext: bytes)
      requires call.data == data && call.isLast == isLast && at == Advanced
      modifies `encryptor, `upload, `hasFinalPartBeenSeen
      ensures RunSection(old(State()), call, at) == RunSection(State(), call, Caching(ciphertext))
    {
      ghost var p, here := State(), at;
      var (next, out) := encryptor.Update(data);
      encryptor := next;
      upload := if isLast then upload else Upload(upload.parts + [data], false);
      here := NextStep(p, call, here);
      ciphertext := out;
      if isLast {
        p := State();
        encryptor := encryptor.Finalize();
        ciphertext := ciphertext + encryptor.Tag();
        upload := Upload(upload.parts + [data], true);
        here := NextStep(p, call, here);
        p := State();
        hasFinalPartBeenSeen := true;
        here := NextStep(p, call, here);
      }
    }

    /** Keep the ciphertext for a retry. */
    method Cache(partNumber: int, ciphertext: bytes, ghost call: PartCall) returns (r: Result<Option<bytes>, PartError>)
      requires call.number == partNumber
      modifies `lastEncryptedPart, `lastEncryptedCiphertext
      ensures (State(), r) == RunSection(old(State()), call, Caching(ciphertext))
    {
      ghost var p, here := State(), Caching(ciphertext);
      lastEncryptedPart := partNumber;
      here := NextStep(p, call, here);
      p := State();
      lastEncryptedCiphertext := Some(ciphertext);
      here := NextStep(p, call, here);
      return Ok(Some(ciphertext));
    }

    /** The fields are what the next step of the section makes of them. */
    ghost method NextStep(p: PipelineState, call: PartCall, at: Section) returns (at': Section)
      requires !at.Leaving? && SectionStep(p, call, at).0 == State()
      ensures at' == SectionStep(p, call, at).1
      ensures RunSection(p, call, at) == RunSection(State(), call, at')
    {
      at' := SectionStep(p, call, at).1;
    }
  }

  // ---- Runs ----

  /** All calls of a run in order: the upload they leave and the result of each. */
  function Run(gcm: Gcm, calls: seq<PartCall>): (Upload, seq<Result<Option<bytes>, PartError>>) {
    if calls == [] then
      (NEW, [])
    else
      var (u, rs) := Run(gcm, calls[..|calls| - 1]);
      var c := calls[|calls| - 1];
      var (u', r) := Submit(gcm, u, c.number, c.data, c.isLast);
      (u', rs + [r])
  }

  /** A call leaves the upload alone or adds its part; ciphertexts already out stay as they are. */
  lemma SubmitExtends(gcm: Gcm, u: Upload, number: int, data: bytes, isLast: bool)
    requires WellFormed(u)
    ensures var (u', r) := Submit(gcm, u, number, data, isLast);
            && WellFormed(u')
            && (u' == u || (!u.final && u' == Upload(u.parts + [data], isLast) && number == |u'.parts|))
            && Ciphertexts(gcm, u) <= Ciphertexts(gcm, u')
            && Explained(gcm, u', number, r)
  {
    if number == |u.parts| + 1 && !u.final {
      CiphertextsKept(gcm, u, data, isLast);
    }
  }

  lemma ExplainedLater(gcm: Gcm, u: Upload, u': Upload, number: int, r: Result<Option<bytes>, PartError>)
    requires Explained(gcm, u, number, r) && Ciphertexts(gcm, u) <= Ciphertexts(gcm, u')
    ensures Explained(gcm, u', number, r)
  {
    if r.Ok? && r.value.Some? {
      assert Ciphertexts(gcm, u)[number - 1] == Ciphertexts(gcm, u')[number - 1];
    }
  }

  /** Over every run: each ciphertext ever handed out for a part, first time or retry, is that
      part's slice of the one encryption the finished upload amounts to. */
  lemma {:induction false} RunHandsOutOneEncryption(gcm: Gcm, calls: seq<PartCall>)
    ensures var (u, rs) := Run(gcm, calls);
            && WellFormed(u)
            && |rs| == |calls|
            && forall i :: 0 <= i < |calls| ==> Explained(gcm, u, calls[i].number, rs[i])
  {
    if calls != [] {
      var n := |calls| - 1;
      var c := calls[n];
      RunHandsOutOneEncryption(gcm, calls[..n]);
      var (u, rs) := Run(gcm, calls[..n]);
      SubmitExtends(gcm, u, c.number, c.data, c.isLast);
      var u' := Submit(gcm, u, c.number, c.data, c.isLast).0;
      forall i | 0 <= i < n
        ensures Explained(gcm, u', calls[i].number, rs[i])
      {
        assert calls[..n][i] == calls[i];
        ExplainedLater(gcm, u, u', calls[i].number, rs[i]);
      }
    }
  }

  /** The ciphertexts of the first k parts are the first bytes of one encryption; all of them,
      once the last was final, are all of it: ciphertext and tag. */
  lemma {:induction false} CiphertextsAreOneEncryption(gcm: Gcm, u: Upload, k: nat)
    requires WellFormed(u) && k <= |u.parts|
    ensures Concat(Ciphertexts(gcm, u)[..k]) == gcm.Mask(0, Concat(u.parts[..k])) + TagAfter(gcm, u, k)
    ensures u.final && k == |u.parts| ==> Concat(Ciphertexts(gcm, u)[..k]) == gcm.Seal(Concat(u.parts))
    decreases k
  {
    if k > 0 {
      CiphertextsAreOneEncryption(gcm, u, k - 1);
      OffsetStep(Ciphertexts(gcm, u), k - 1);
      OffsetStep(u.parts, k - 1);
      MaskExtends(gcm, Concat(u.parts[..k - 1]), u.parts[k - 1], TagAfter(gcm, u, k));
    }
    assert k == |u.parts| ==> u.parts[..k] == u.parts;
  }

  lemma MaskExtends(gcm: Gcm, before: bytes, part: bytes, tag: bytes)
    ensures gcm.Mask(0, before) + [] + (gcm.Mask(|before|, part) + tag) == gcm.Mask(0, before + part) + tag
  {
    gcm.MaskConcat(0, before, part);
  }

  /** The bytes of an explained result: the part's, xored with the keystream from where the part
      starts, and the tag of `sent` behind the last part. */
  ghost predicate BytesOf(gcm: Gcm, u: Upload, n: int, out: bytes, sent: bytes) {
    && 1 <= n <= |u.parts|
    && var part, start := u.parts[n - 1], Offset(u.parts, n - 1);
    && |out| == |part| + (if u.final && n == |u.parts| then 16 else 0)
    && (forall j :: 0 <= j < |part| ==> out[j] == part[j] ^ gcm.prim.keystream(gcm.key, gcm.iv, start + j))
    && (forall j :: |part| <= j < |out| ==> out[j] == gcm.prim.tagByte(gcm.key, gcm.iv, gcm.aad, sent, j - |part|))
  }

  lemma ExplainedBytes(gcm: Gcm, u: Upload, n: int, r: Result<Option<bytes>, PartError>, sent: bytes)
    requires WellFormed(u) && Explained(gcm, u, n, r) && r.Ok? && r.value.Some?
    requires sent == gcm.Mask(0, Concat(u.parts))
    ensures BytesOf(gcm, u, n, r.value.value, sent)
  {
  }

  /** Byte by byte, over every run: the ciphertext handed out for part n, first time or retry, is the
      part's bytes xored with the keystream from where the part starts in the whole plaintext; and
      the last part of a final upload is followed by the 16 tag bytes of `sent`, the whole
      plaintext xored with the keystream from position 0. */
  lemma HandedOutBytes(gcm: Gcm, calls: seq<PartCall>, i: nat, sent: bytes)
    requires i < |calls|
    requires var whole := Concat(Run(gcm, calls).0.parts);
             |sent| == |whole| && forall j :: 0 <= j < |whole| ==> sent[j] == whole[j] ^ gcm.prim.keystream(gcm.key, gcm.iv, j)
    ensures var (u, rs) := Run(gcm, calls);
            && |rs| == |calls|
            && (rs[i].Ok? && rs[i].value.Some? ==> BytesOf(gcm, u, calls[i].number, rs[i].value.value, sent))
  {
    RunHandsOutOneEncryption(gcm, calls);
    var (u, rs) := Run(gcm, calls);
    assert sent == gcm.Mask(0, Concat(u.parts));
    if rs[i].Ok? && rs[i].value.Some? {
      ExplainedBytes(gcm, u, calls[i].number, rs[i], sent);
    }
  }

  /** Accepted parts are exactly 1..k: in any run a call's part is added exactly when it carries the
      next number and no part before was final; a retry of the latest part is answered, and every
      other call is refused. */
  lemma PartsAcceptedExactly(gcm: Gcm, calls: seq<PartCall>, i: nat)
    requires i < |calls|
    ensures |Run(gcm, calls).1| == |calls|
    ensures var u, u' := Run(gcm, calls[..i]).0, Run(gcm, calls[..i + 1]).0;
            var c, r := calls[i], Run(gcm, calls).1[i];
            && (u'.parts == u.parts + [c.data] && u'.final == c.isLast <==> c.number == |u.parts| + 1 && !u.final)
            && (u' != u ==> c.number == |u.parts| + 1 && !u.final)
            && (r.Ok? <==> c.number == |u.parts| || (c.number == |u.parts| + 1 && !u.final))
            && (r.Err? ==> r.error == if u.final then AfterFinalPart else OutOfSequence(|u.parts| + 1))
  {
    RunPrefix(gcm, calls, i);
    assert calls[..i + 1][..i] == calls[..i];
    var u := Run(gcm, calls[..i]).0;
    assert |u.parts + [calls[i].data]| == |u.parts| + 1;
  }

  /** The same calls on the pipeline's fields: the state they leave and the results. */
  function RunPipeline(gcm: Gcm, calls: seq<PartCall>): (PipelineState, seq<Result<Option<bytes>, PartError>>) {
    if calls == [] then
      (NewPipeline(gcm), [])
    else
      var (p, rs) := RunPipeline(gcm, calls[..|calls| - 1]);
      var (p', r) := RunSection(p, calls[|calls| - 1], Entered);
      (p', rs + [r])
  }

  lemma {:induction false} PipelineRefinesRun(gcm: Gcm, calls: seq<PartCall>)
    ensures var (p, rs) := RunPipeline(gcm, calls);
            Settled(gcm, p) && (p.upload, rs) == Run(gcm, calls)
  {
    if calls != [] {
      PipelineRefinesRun(gcm, calls[..|calls| - 1]);
      SectionIsSubmit(gcm, RunPipeline(gcm, calls[..|calls| - 1]).0, calls[|calls| - 1]);
    }
  }

  /** No keystream position is ever used twice: over every run of calls, retries with other data
      and rejected calls included, the cipher enciphered exactly the accepted plaintext, byte i at
      position i, and nothing else. */
  lemma KeystreamNotReused(gcm: Gcm, calls: seq<PartCall>)
    ensures var used := RunPipeline(gcm, calls).0.encryptor.used;
            var accepted := Concat(Run(gcm, calls).0.parts);
            && |used| == |accepted|
            && (forall i :: 0 <= i < |used| ==> used[i] == Use(i, accepted[i]))
            && (forall i, j :: 0 <= i < j < |used| ==> used[i].position != used[j].position)
    ensures var e := RunPipeline(gcm, calls).0.encryptor;
            && |e.sent| == |e.used|
            && forall i :: 0 <= i < |e.used| ==>
                 e.sent[i] == e.used[i].byte ^ gcm.prim.keystream(gcm.key, gcm.iv, e.used[i].position)
  {
    PipelineRefinesRun(gcm, calls);
  }

  /** The numbers 1..n, as all parts of an upload are listed. */
  function UpTo(n: nat): seq<int> {
    seq(n, i => i + 1)
  }

  /** A retry of the latest part returns what the first call returned and changes nothing,
      whatever data and final mark it comes with. */
  lemma RetryRepeats(gcm: Gcm, u: Upload, first: PartCall, retry: PartCall)
    requires first.number == |u.parts| + 1 == retry.number && !u.final
    ensures var (u', r) := Submit(gcm, u, first.number, first.data, first.isLast);
            Submit(gcm, u', retry.number, retry.data, retry.isLast) == (u', r)
  {
  }

  /** A call's result and effect depend on the calls before it only. */
  lemma {:induction false} RunPrefix(gcm: Gcm, calls: seq<PartCall>, i: nat)
    requires i < |calls|
    ensures |Run(gcm, calls).1| == |calls|
    ensures var c := calls[i];
            Run(gcm, calls).1[i] == Submit(gcm, Run(gcm, calls[..i]).0, c.number, c.data, c.isLast).1
    decreases |calls|
  {
    var n := |calls| - 1;
    if n > 0 {
      RunPrefix(gcm, calls[..n], if i < n then i else 0);
    }
    if i < n {
      assert calls[..n][..i] == calls[..i] && calls[..n][i] == calls[i];
    }
  }

  /** The source's sentinel for "no part yet" is 0, so in any run a call gets no ciphertext and no
      error exactly when it asks for part 0 before any part was accepted. */
  lemma NoCiphertextExactly(gcm: Gcm, calls: seq<PartCall>, i: nat)
    requires i < |calls|
    ensures |Run(gcm, calls).1| == |calls|
    ensures Run(gcm, calls).1[i] == Ok(None) <==> calls[i].number == 0 && Run(gcm, calls[..i]).0.parts == []
  {
    RunPrefix(gcm, calls, i);
  }
}
