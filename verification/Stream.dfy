/** The stream handed to callers: read() over a body that may return short reads. */
module Stream {
  import opened Wrappers
  import opened AesGcm
  import opened Chunks
  import opened Decryptors

  /** A schedule of short reads: how many bytes the body is ready to give at each position. */
  type Schedule = nat -> nat

  /** How many bytes a read of `n` at `position` returns: at least one and at most what was asked
      for and is there, or none. Since every other read moves on, a schedule by position can
      express any pattern of short reads. */
  function ReadLength(schedule: Schedule, size: nat, position: nat, n: nat): (k: nat)
    requires position <= size
    ensures k <= n && position + k <= size && (k == 0 <==> n == 0 || position == size)
  {
    var most := if n <= size - position then n else size - position;
    var ready := schedule(position);
    if most == 0 then 0 else if ready == 0 then 1 else if ready <= most then ready else most
  }

  /** A readable with an arbitrary schedule of short reads. */
  class Reader {
    const data: bytes
    const schedule: Schedule
    var position: nat

    ghost predicate Valid()
      reads this
    {
      position <= |data|
    }

    /** Everything asked for is returned, as far as there is data. */
    ghost predicate FullReads() {
      forall p: nat :: schedule(p) >= |data|
    }

    constructor (data: bytes, schedule: Schedule)
      ensures Valid() && position == 0 && this.data == data && this.schedule == schedule
    {
      this.data := data;
      this.schedule := schedule;
      this.position := 0;
    }

    method Read(n: nat) returns (chunk: bytes)
      requires Valid()
      modifies this
      ensures Valid() && position == old(position) + ReadLength(schedule, |data|, old(position), n)
      ensures chunk == data[old(position)..position]
    {
      var k := ReadLength(schedule, |data|, position, n);
      chunk := data[position..position + k];
      position := position + k;
    }

    method ReadAll() returns (rest: bytes)
      requires Valid()
      modifies this
      ensures Valid() && position == |data| && rest == data[old(position)..]
    {
      rest := data[position..];
      position := |data|;
    }
  }

  /** What a caller can know of a stream: how much ciphertext it consumed, whether it is
      finished, the plaintext of all reads so far, and the error it raised, if any. */
  datatype View = View(consumed: nat, finalized: bool, delivered: bytes, failure: Option<Failure>)

  const START := View(0, false, [], None)

  /** The result of finishing after `consumed`: one-shot decryption, then the length check. */
  function Finish(spec: CipherSpec, consumed: bytes, contentLength: nat): Result<bytes, Failure> {
    match spec.Whole(consumed)
    case Err(e) => Err(e)
    case Ok(whole) => if |consumed| == contentLength then Ok(whole) else Err(IncompleteRead)
  }

  /** What was released stays, also when the stream finishes. */
  lemma ReleasedSoFar(spec: CipherSpec, body: bytes, i: nat, j: nat)
    requires i <= j <= |body|
    ensures spec.Released(body[..i]) <= spec.Released(body[..j])
    ensures spec.Whole(body[..j]).Ok? ==> spec.Released(body[..i]) <= spec.Whole(body[..j]).value
  {
    assert body[..j] == body[..i] + body[i..j];
    spec.ReleasedIsPrefix(body[..i], body[i..j]);
  }

  // ---- read() under a given schedule of short reads ----

  /** Where the next chunk ends: at most the announced length, the size asked for, and what the
      schedule lets the body give. */
  function ChunkEnd(body: bytes, contentLength: nat, schedule: Schedule, consumed: nat, amt: Option<nat>): (n: nat)
    requires consumed <= contentLength && consumed <= |body|
    ensures consumed <= n <= |body| && n <= contentLength
    ensures amt.Some? ==> n <= consumed + amt.value
    ensures n == consumed <==> consumed == contentLength || consumed == |body| || amt == Some(0)
  {
    var remaining := contentLength - consumed;
    var toRead := if amt.None? || remaining < amt.value then remaining else amt.value;
    consumed + ReadLength(schedule, |body|, consumed, toRead)
  }

  /** What comes out when ciphertext up to `n` is in, beyond what was released before. */
  function Newly(spec: CipherSpec, body: bytes, consumed: nat, n: nat): bytes
    requires consumed <= n <= |body|
  {
    ReleasedSoFar(spec, body, consumed, n);
    spec.Released(body[..n])[|spec.Released(body[..consumed])|..]
  }

  function FinishAt(spec: CipherSpec, body: bytes, contentLength: nat, v: View, n: nat): (View, Result<bytes, Failure>)
    requires v.consumed <= n <= |body|
  {
    ReleasedSoFar(spec, body, v.consumed, n);
    match Finish(spec, body[..n], contentLength)
    case Err(e) => (View(n, true, v.delivered, Some(e)), Err(e))
    case Ok(whole) =>
      var out := whole[|spec.Released(body[..v.consumed])|..];
      (View(n, true, v.delivered + out, v.failure), Ok(out))
  }

  lemma NewlyIs(spec: CipherSpec, body: bytes, consumed: nat, n: nat, out: bytes)
    requires consumed <= n <= |body|
    requires spec.Released(body[..n]) == spec.Released(body[..consumed]) + out
    ensures Newly(spec, body, consumed, n) == out
  {
  }

  lemma FinishedAt(spec: CipherSpec, body: bytes, contentLength: nat, v: View, n: nat, r: Result<bytes, Failure>)
    requires v.consumed <= n <= |body|
    requires match Finish(spec, body[..n], contentLength) {
               case Ok(whole) => r.Ok? && spec.Released(body[..v.consumed]) + r.value == whole
               case Err(e) => r == Err(e)
             }
    ensures FinishAt(spec, body, contentLength, v, n) ==
            (View(n, true, if r.Ok? then v.delivered + r.value else v.delivered, if r.Ok? then v.failure else Some(r.error)), r)
  {
  }

  /** A stream between two rounds of a read, as far as its lengths go. */
  predicate Running(body: bytes, contentLength: nat, v: View) {
    !v.finalized && v.consumed <= contentLength && v.consumed <= |body|
  }

  /** One round: read a chunk, then finish or release. */
  function RoundWith(spec: CipherSpec, body: bytes, contentLength: nat, schedule: Schedule, v: View, amt: Option<nat>)
    : (r: (View, Result<bytes, Failure>))
    requires Running(body, contentLength, v)
    ensures !r.0.finalized ==> Running(body, contentLength, r.0) && v.consumed < r.0.consumed < contentLength && r.1.Ok?
  {
    var n := ChunkEnd(body, contentLength, schedule, v.consumed, amt);
    if n == v.consumed || n == contentLength then
      FinishAt(spec, body, contentLength, v, n)
    else
      var out := Newly(spec, body, v.consumed, n);
      (View(n, false, v.delivered + out, v.failure), Ok(out))
  }

  /** A whole read(): rounds until something comes out or the stream ends. */
  function ReadWith(spec: CipherSpec, body: bytes, contentLength: nat, schedule: Schedule, v: View, amt: Option<nat>)
    : (View, Result<bytes, Failure>)
    requires v.finalized || Running(body, contentLength, v)
    decreases contentLength - v.consumed
  {
    if v.finalized then
      (v, Ok([]))
    else
      var (v', r) := RoundWith(spec, body, contentLength, schedule, v, amt);
      if v'.finalized || r.value != [] then (v', r) else ReadWith(spec, body, contentLength, schedule, v', amt)
  }

  /** With full reads, read() takes in everything announced at once. */
  lemma FullReadFinishes(spec: CipherSpec, body: bytes, contentLength: nat, schedule: Schedule, v: View)
    requires Running(body, contentLength, v) && contentLength <= |body|
    requires forall p: nat :: schedule(p) >= |body|
    ensures RoundWith(spec, body, contentLength, schedule, v, None).0.finalized
  {
  }

  // ---- read() under any schedule ----

  /** One round of read(amt) on an unfinished stream, whatever short read the body chooses to
      make: either more ciphertext goes in and what it releases comes out, or the stream ends. It
      takes in at most `amt` bytes more than can be in without anything coming out. */
  ghost predicate Round(spec: CipherSpec, body: bytes, contentLength: nat,
                        v: View, amt: Option<nat>, v': View, r: Result<bytes, Failure>)
  {
    && !v.finalized
    && v.consumed <= v'.consumed <= |body|
    && v'.consumed <= contentLength
    && (amt == Some(0) ==> v'.finalized && v'.consumed == v.consumed)
    && (amt.Some? ==> v'.consumed <= |spec.Released(body[..v.consumed])| + spec.HeldBack() + amt.value)
    && (v'.delivered == if r.Ok? then v.delivered + r.value else v.delivered)
    && (v'.failure == if r.Ok? then v.failure else Some(r.error))
    && if v'.finalized then
         && (v'.consumed == contentLength || v'.consumed == |body| || amt == Some(0))
         && (v'.consumed < contentLength ==> spec.ReleasedLength(v'.consumed) == spec.ReleasedLength(v.consumed))
         && match Finish(spec, body[..v'.consumed], contentLength) {
              case Ok(whole) => r.Ok? && spec.Released(body[..v.consumed]) + r.value == whole
              case Err(e) => r == Err(e)
            }
       else
         && v.consumed < v'.consumed < contentLength
         && r.Ok?
         && spec.Released(body[..v'.consumed]) == spec.Released(body[..v.consumed]) + r.value
  }

  lemma PrefixAndRest(a: bytes, b: bytes)
    requires a <= b
    ensures a + b[|a|..] == b
  {
  }

  lemma TakesIn(spec: CipherSpec, body: bytes, consumed: nat, n: nat, amt: nat)
    requires consumed <= |body| && n <= consumed + amt
    ensures n <= |spec.Released(body[..consumed])| + spec.HeldBack() + amt
  {
    spec.ReleasedLengthIs(body[..consumed]);
    spec.HoldsBackAtMost(consumed);
  }

  lemma FinishIsRound(spec: CipherSpec, body: bytes, contentLength: nat, v: View, amt: Option<nat>, n: nat)
    requires Running(body, contentLength, v) && v.consumed <= n <= |body| && n <= contentLength
    requires n == contentLength || (n == v.consumed && (n == |body| || amt == Some(0)))
    requires amt.Some? ==> n <= v.consumed + amt.value
    ensures var (v', r) := FinishAt(spec, body, contentLength, v, n); Round(spec, body, contentLength, v, amt, v', r)
  {
    ReleasedSoFar(spec, body, v.consumed, n);
    if amt.Some? {
      TakesIn(spec, body, v.consumed, n, amt.value);
    }
    var before, outcome := spec.Released(body[..v.consumed]), Finish(spec, body[..n], contentLength);
    if outcome.Ok? {
      PrefixAndRest(before, outcome.value);
    }
  }

  lemma ContinueIsRound(spec: CipherSpec, body: bytes, contentLength: nat, v: View, amt: Option<nat>, n: nat)
    requires Running(body, contentLength, v) && v.consumed < n < contentLength && n <= |body|
    requires amt.Some? ==> n <= v.consumed + amt.value
    ensures var out := Newly(spec, body, v.consumed, n);
            Round(spec, body, contentLength, v, amt, View(n, false, v.delivered + out, v.failure), Ok(out))
  {
    ReleasedSoFar(spec, body, v.consumed, n);
    if amt.Some? {
      TakesIn(spec, body, v.consumed, n, amt.value);
    }
    PrefixAndRest(spec.Released(body[..v.consumed]), spec.Released(body[..n]));
  }

  lemma RoundWithIsRound(spec: CipherSpec, body: bytes, contentLength: nat, schedule: Schedule, v: View, amt: Option<nat>)
    requires Running(body, contentLength, v)
    ensures var (v', r) := RoundWith(spec, body, contentLength, schedule, v, amt);
            Round(spec, body, contentLength, v, amt, v', r)
  {
    var n := ChunkEnd(body, contentLength, schedule, v.consumed, amt);
    if n == v.consumed || n == contentLength {
      FinishIsRound(spec, body, contentLength, v, amt, n);
    } else {
      ContinueIsRound(spec, body, contentLength, v, amt, n);
    }
  }

  /** A round that released nothing merges into the next one. */
  lemma RoundsMerge(spec: CipherSpec, body: bytes, contentLength: nat,
                    v: View, amt: Option<nat>, v': View, v'': View, r: Result<bytes, Failure>)
    requires Round(spec, body, contentLength, v, amt, v', Ok([])) && !v'.finalized
    requires Round(spec, body, contentLength, v', amt, v'', r)
    ensures Round(spec, body, contentLength, v, amt, v'', r)
  {
    assert spec.Released(body[..v'.consumed]) == spec.Released(body[..v.consumed]);
    assert v'.delivered == v.delivered;
    spec.ReleasedLengthIs(body[..v'.consumed]);
    spec.ReleasedLengthIs(body[..v.consumed]);
  }

  /** So no result is longer than `amt` by more than the cipher's overshoot. */
  lemma RoundWithinSize(spec: CipherSpec, body: bytes, contentLength: nat,
                        v: View, amt: nat, v': View, r: Result<bytes, Failure>)
    requires Round(spec, body, contentLength, v, Some(amt), v', r)
    ensures r.Ok? ==> |r.value| <= amt + spec.Overshoot()
  {
    var now := body[..v'.consumed];
    spec.PlaintextLength(now);
    spec.ReleasedLengthIs(now);
  }

  /** A read of one unit returns exactly that, until the stream finishes. */
  lemma UnitRoundIsExact(spec: CipherSpec, body: bytes, contentLength: nat, v: View, v': View, r: Result<bytes, Failure>)
    requires Round(spec, body, contentLength, v, Some(spec.Unit()), v', r)
    requires !v'.finalized && r.value != []
    ensures |r.value| == spec.Unit()
  {
    spec.ReleasedLengthIs(body[..v.consumed]);
    spec.ReleasedLengthIs(body[..v'.consumed]);
    spec.UnitReleased(v.consumed, v'.consumed);
  }

  /** One call of read(amt): it finishes the stream or returns something, and a finished
      stream returns nothing for ever. */
  ghost predicate ReadStep(spec: CipherSpec, body: bytes, contentLength: nat,
                           v: View, amt: Option<nat>, v': View, r: Result<bytes, Failure>)
  {
    if v.finalized then
      v' == v && r == Ok([])
    else
      Round(spec, body, contentLength, v, amt, v', r) && (v'.finalized || r.value != [])
  }

  /** What holds of a stream between any two reads. */
  ghost predicate Consistent(spec: CipherSpec, body: bytes, contentLength: nat, v: View) {
    && v.consumed <= contentLength
    && v.consumed <= |body|
    && if !v.finalized then
         && (v.consumed < contentLength || v.consumed == 0)
         && v.failure == None
         && v.delivered == spec.Released(body[..v.consumed])
       else
         match Finish(spec, body[..v.consumed], contentLength)
         case Ok(whole) => v.failure == None && v.delivered == whole
         case Err(e) => v.failure == Some(e) && v.delivered <= spec.Released(body[..v.consumed])
  }

  lemma StartConsistent(spec: CipherSpec, body: bytes, contentLength: nat)
    ensures Consistent(spec, body, contentLength, START)
  {
    spec.NothingReleased(body[..0]);
  }

  lemma ReadStepConsistent(spec: CipherSpec, body: bytes, contentLength: nat,
                           v: View, amt: Option<nat>, v': View, r: Result<bytes, Failure>)
    requires Consistent(spec, body, contentLength, v)
    requires ReadStep(spec, body, contentLength, v, amt, v', r)
    ensures Consistent(spec, body, contentLength, v')
  {
    if !v.finalized {
      ReleasedSoFar(spec, body, v.consumed, v'.consumed);
    }
  }

  class DecryptingStream {
    const body: Reader
    const decryptor: Decryptor
    const contentLength: nat
    var bytesConsumed: nat
    var finalized: bool
    ghost const spec: CipherSpec
    ghost var delivered: bytes
    ghost var failure: Option<Failure>

    ghost function Snapshot(): View
      reads this
    {
      View(bytesConsumed, finalized, delivered, failure)
    }

    ghost predicate Valid()
      reads this, body, decryptor.Object()
    {
      && body.Valid()
      && (body as object) != this && decryptor.Object() != this && decryptor.Object() != body
      && bytesConsumed == body.position <= contentLength
      && spec == decryptor.Spec()
      && decryptor.AmountRead() == bytesConsumed
      && decryptor.Fed() == body.data[..bytesConsumed]
      && (!finalized ==> decryptor.Valid() && (bytesConsumed < contentLength || bytesConsumed == 0))
    }

    constructor (body: Reader, decryptor: Decryptor, contentLength: nat)
      requires body.Valid() && body.position == 0
      requires decryptor.Valid() && decryptor.Fed() == [] && decryptor.AmountRead() == 0
      requires decryptor.Object() != body
      ensures Valid() && Snapshot() == START
      ensures this.body == body && this.decryptor == decryptor && this.contentLength == contentLength
      ensures spec == decryptor.Spec()
    {
      this.body := body;
      this.decryptor := decryptor;
      this.spec := decryptor.Spec();
      this.contentLength := contentLength;
      this.bytesConsumed := 0;
      this.finalized := false;
      this.delivered := [];
      this.failure := None;
    }

    /** Read up to `amt` bytes of ciphertext (everything announced when None), and loop until
        some plaintext comes out or the stream ends. */
    method Read(amt: Option<nat>) returns (r: Result<bytes, Failure>)
      requires Valid()
      modifies this, body, decryptor.Object()
      ensures Valid()
      ensures ReadStep(spec, body.data, contentLength, old(Snapshot()), amt, Snapshot(), r)
      ensures amt.Some? && r.Ok? ==> |r.value| <= amt.value + spec.Overshoot()
      ensures (Snapshot(), r) == ReadWith(spec, body.data, contentLength, body.schedule, old(Snapshot()), amt)
      ensures amt.None? && body.FullReads() && contentLength <= |body.data| ==> finalized
    {
      if finalized {
        return Ok([]);
      }
      ghost var before := Snapshot();
      var result := [];
      while result == []
        invariant Valid() && !finalized
        invariant (result == [] && Snapshot() == before)
               || Round(spec, body.data, contentLength, before, amt, Snapshot(), Ok(result))
        invariant amt.Some? ==> |result| <= amt.value + spec.Overshoot()
        invariant ReadWith(spec, body.data, contentLength, body.schedule, before, amt) ==
                  if result == [] then ReadWith(spec, body.data, contentLength, body.schedule, Snapshot(), amt)
                  else (Snapshot(), Ok(result))
        invariant amt.None? && body.FullReads() && contentLength <= |body.data| ==> result == []
        decreases contentLength - bytesConsumed, result == []
      {
        ghost var v := Snapshot();
        r := ReadRound(amt);
        RoundWithIsRound(spec, body.data, contentLength, body.schedule, v, amt);
        if amt.None? && body.FullReads() && contentLength <= |body.data| {
          FullReadFinishes(spec, body.data, contentLength, body.schedule, v);
        }
        if v != before {
          RoundsMerge(spec, body.data, contentLength, before, amt, v, Snapshot(), r);
        }
        if amt.Some? {
          RoundWithinSize(spec, body.data, contentLength, before, amt.value, Snapshot(), r);
        }
        if finalized {
          return;
        }
        result := r.value;
      }
      return Ok(result);
    }

    /** One round of the read loop. */
    method ReadRound(amt: Option<nat>) returns (r: Result<bytes, Failure>)
      requires Valid() && !finalized
      modifies this, body, decryptor.Object()
      ensures Valid()
      ensures (Snapshot(), r) == RoundWith(spec, body.data, contentLength, body.schedule, old(Snapshot()), amt)
    {
      ghost var fed, v := decryptor.Fed(), Snapshot();
      var raw, last := NextChunk(amt);
      assert body.data[..bytesConsumed] == fed + raw;
      if last {
        r := Finalize(raw);
        FinishedAt(spec, body.data, contentLength, v, bytesConsumed, r);
      } else {
        var plaintext := decryptor.Update(raw);
        delivered := delivered + plaintext;
        NewlyIs(spec, body.data, v.consumed, bytesConsumed, plaintext);
        r := Ok(plaintext);
      }
    }

    /** Read the next chunk of ciphertext, and say whether it is the last one: never past the
        announced length, and ending early when the body does. */
    method NextChunk(amt: Option<nat>) returns (raw: bytes, last: bool)
      requires body.Valid() && (body as object) != this
      requires bytesConsumed == body.position <= contentLength
      modifies `bytesConsumed, body
      ensures body.Valid() && bytesConsumed == body.position <= contentLength
      ensures bytesConsumed == ChunkEnd(body.data, contentLength, body.schedule, old(bytesConsumed), amt)
      ensures raw == body.data[old(bytesConsumed)..bytesConsumed]
      ensures last <==> raw == [] || bytesConsumed == contentLength
    {
      var remaining := contentLength - bytesConsumed;
      if remaining <= 0 {
        return [], true;
      }
      var toRead := if amt.None? || remaining < amt.value then remaining else amt.value;
      raw := body.Read(toRead);
      if raw == [] {
        return [], true;
      }
      bytesConsumed := bytesConsumed + |raw|;
      remaining := contentLength - bytesConsumed;
      last := remaining <= 0;
    }

    /** Finish the stream with the last chunk, then check that the announced length was consumed. */
    method Finalize(trailing: bytes) returns (r: Result<bytes, Failure>)
      requires body.Valid() && decryptor.Valid() && spec == decryptor.Spec() && !finalized
      requires (body as object) != this && decryptor.Object() != this && decryptor.Object() != body
      requires bytesConsumed == body.position <= contentLength
      requires decryptor.Fed() + trailing == body.data[..bytesConsumed]
      modifies this, decryptor.Object()
      ensures Valid() && finalized && bytesConsumed == old(bytesConsumed)
      ensures match Finish(spec, body.data[..bytesConsumed], contentLength) {
                case Ok(whole) => r.Ok? && spec.Released(old(decryptor.Fed())) + r.value == whole
                case Err(e) => r == Err(e)
              }
      ensures decryptor.GcmDecryptor? && r.Ok? ==> |r.value| <= |trailing|
      ensures delivered == if r.Ok? then old(delivered) + r.value else old(delivered)
      ensures failure == if r.Ok? then old(failure) else Some(r.error)
    {
      finalized := true;
      r := decryptor.Finalize(trailing);
      if r.Ok? && decryptor.AmountRead() != contentLength {
        r := Err(IncompleteRead);
      }
      if r.Ok? {
        delivered := delivered + r.value;
      } else {
        failure := Some(r.error);
      }
    }

    /** Between any two reads: the fields agree and what was delivered is right so far. */
    ghost predicate Healthy()
      reads this, body, decryptor.Object()
    {
      Valid() && Consistent(spec, body.data, contentLength, Snapshot())
    }

    /** One step of an iteration: an empty chunk or an error ends it. */
    method Next(chunkSize: nat) returns (r: Result<bytes, Failure>)
      requires Healthy()
      modifies this, body, decryptor.Object()
      ensures Healthy()
      ensures old(finalized) ==> r == Ok([]) && Snapshot() == old(Snapshot())
      ensures r.Err? || r.value == [] ==> finalized
      ensures r.Ok? ==> |r.value| <= chunkSize + spec.Overshoot()
      ensures chunkSize == spec.Unit() && !finalized ==> r.Ok? && |r.value| == chunkSize
      ensures r.Err? ==> failure == Some(r.error) && delivered == old(delivered)
      ensures r.Ok? ==> failure == old(failure) && delivered == old(delivered) + r.value
      ensures old(bytesConsumed) <= bytesConsumed
      ensures !finalized ==> old(bytesConsumed) < bytesConsumed
      ensures !old(finalized) && finalized && chunkSize > 0 ==>
                bytesConsumed == contentLength || bytesConsumed == |body.data|
    {
      ghost var v := Snapshot();
      r := Read(Some(chunkSize));
      ReadStepConsistent(spec, body.data, contentLength, v, Some(chunkSize), Snapshot(), r);
      if chunkSize == spec.Unit() && !finalized {
        UnitRoundIsExact(spec, body.data, contentLength, v, Snapshot(), r);
      }
    }

    /** The chunks yielded since `start`, and the error they ended with. */
    ghost predicate Iterated(start: bytes, chunks: seq<Chunk>, error: Option<Failure>, chunkSize: nat)
      reads this, body, decryptor.Object()
    {
      && Healthy() && error == failure
      && delivered == start + Concat(chunks)
      && AllWithin(chunks, chunkSize + spec.Overshoot())
      && (chunkSize == spec.Unit() ==> AllOf(if finalized then ButLast(chunks) else chunks, chunkSize))
      && (finalized && chunkSize > 0 ==> bytesConsumed == contentLength || bytesConsumed == |body.data|)
    }

    /** Read chunks until a read comes back empty. The generator's yields are collected; an
        error ends it after the chunks already yielded. */
    method IterChunks(chunkSize: nat) returns (chunks: seq<Chunk>, error: Option<Failure>)
      requires Healthy() && !finalized
      modifies this, body, decryptor.Object()
      ensures Healthy() && finalized && error == failure
      ensures delivered == old(delivered) + Concat(chunks)
      ensures AllWithin(chunks, chunkSize + spec.Overshoot())
      ensures chunkSize == spec.Unit() ==> AllOf(ButLast(chunks), chunkSize)
      ensures chunkSize > 0 ==> bytesConsumed == contentLength || bytesConsumed == |body.data|
    {
      chunks, error := [], None;
      var more := true;
      while more
        invariant Iterated(old(delivered), chunks, error, chunkSize)
        invariant more ==> error == None
        invariant !more ==> finalized
        decreases contentLength - bytesConsumed, !finalized, more
      {
        more, chunks, error := IterNext(old(delivered), chunks, chunkSize);
      }
    }

    /** One step of the generator: yield a chunk, or end. */
    method IterNext(ghost start: bytes, chunks: seq<Chunk>, chunkSize: nat)
      returns (more: bool, chunks': seq<Chunk>, error: Option<Failure>)
      requires Iterated(start, chunks, None, chunkSize)
      modifies this, body, decryptor.Object()
      ensures Iterated(start, chunks', error, chunkSize)
      ensures more ==> error == None
      ensures !more ==> finalized
      ensures old(bytesConsumed) <= bytesConsumed
      ensures !finalized ==> old(bytesConsumed) < bytesConsumed
      ensures old(finalized) ==> !more && finalized && bytesConsumed == old(bytesConsumed)
    {
      chunks', error := chunks, None;
      var r := Next(chunkSize);
      more := r.Ok? && r.value != [];
      PushSizes(chunks, if r.Ok? then r.value else [], chunkSize + spec.Overshoot(), chunkSize);
      if more {
        ConcatPush(start, chunks, r.value);
        chunks' := chunks + [r.value];
      } else {
        error := if r.Err? then Some(r.error) else None;
      }
    }

    /** `while chunk := read(amt)` drains a stream from any reader: the chunks are what one-shot
        decryption of the announced bytes gives, or the error is its error; when the body is
        shorter than announced, an error of one-shot decryption or of the length check. */
    method Drain(chunkSize: nat) returns (r: Result<bytes, Failure>)
      requires Valid() && Snapshot() == START && chunkSize > 0
      modifies this, body, decryptor.Object()
      ensures r == Finish(spec, Announced(body.data, contentLength), contentLength)
      ensures contentLength == |body.data| ==> r == spec.Whole(body.data)
    {
      StartConsistent(spec, body.data, contentLength);
      var chunks, error := IterChunks(chunkSize);
      assert body.data[..bytesConsumed] == Announced(body.data, contentLength);
      assert delivered == Concat(chunks);
      assert contentLength == |body.data| ==> Announced(body.data, contentLength) == body.data;
      r := if error.Some? then Err(error.value) else Ok(Concat(chunks));
    }

    /** Read into a buffer of fixed contents, as into a bytearray: its start is overwritten with what
        one read of the buffer's size returned. For AES-GCM that always fits; for CBC the result can
        be longer, and then the buffer grows. */
    method ReadInto(buffer: bytes) returns (r: Result<nat, Failure>, buffer': bytes)
      requires Valid()
      modifies this, body, decryptor.Object()
      ensures Valid()
      ensures match r {
                case Ok(n) =>
                  && n <= |buffer'| && n <= |buffer| + spec.Overshoot()
                  && ReadStep(spec, body.data, contentLength, old(Snapshot()), Some(|buffer|), Snapshot(), Ok(buffer'[..n]))
                  && buffer'[n..] == if n <= |buffer| then buffer[n..] else []
                case Err(e) =>
                  && buffer' == buffer
                  && ReadStep(spec, body.data, contentLength, old(Snapshot()), Some(|buffer|), Snapshot(), Err(e))
              }
      ensures spec.GcmSpec? ==> |buffer'| == |buffer|
    {
      var data := Read(Some(|buffer|));
      if data.Err? {
        return Err(data.error), buffer;
      }
      var n := |data.value|;
      buffer' := data.value + if n <= |buffer| then buffer[n..] else [];
      assert buffer'[..n] == data.value;
      return Ok(n), buffer';
    }
  }

  /** The part of a body that a stream consumes. */
  function Announced(body: bytes, contentLength: nat): bytes {
    if contentLength <= |body| then body[..contentLength] else body
  }

  /** Buffered mode: read the whole body and decrypt it in one call, so that nothing comes out
      before the tag was verified. */
  method OneShotDecrypt(body: Reader, decryptor: Decryptor) returns (r: Result<bytes, Failure>)
    requires body.Valid() && body.position == 0
    requires decryptor.Valid() && decryptor.Fed() == [] && decryptor.Object() != body
    modifies body, decryptor.Object()
    ensures r == decryptor.Spec().Whole(body.data)
  {
    var data := body.ReadAll();
    assert decryptor.Fed() + data == body.data;
    decryptor.Spec().NothingReleased(decryptor.Fed());
    r := decryptor.Finalize(data);
    assert r.Ok? ==> [] + r.value == r.value;
  }
}
