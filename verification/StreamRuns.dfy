/** Whole runs of read() calls: any sizes, any short reads, any number of calls. */
module StreamRuns {
  import opened Wrappers
  import opened AesGcm
  import opened AesCbc
  import opened Decryptors
  import opened Stream

  datatype ReadEvent = ReadEvent(amt: Option<nat>, result: Result<bytes, Failure>)

  /** `v` can be reached from a new stream by reads with exactly these sizes and results. */
  ghost predicate Run(spec: CipherSpec, body: bytes, contentLength: nat, events: seq<ReadEvent>, v: View)
    decreases |events|
  {
    if events == [] then
      v == START
    else
      var last := events[|events| - 1];
      exists u ::
        && Run(spec, body, contentLength, events[..|events| - 1], u)
        && ReadStep(spec, body, contentLength, u, last.amt, v, last.result)
  }

  /** Everything the caller received. */
  function Delivered(events: seq<ReadEvent>): bytes {
    if events == [] then
      []
    else
      var r := events[|events| - 1].result;
      Delivered(events[..|events| - 1]) + if r.Ok? then r.value else []
  }

  /** Every error the caller saw, in order. */
  function Errors(events: seq<ReadEvent>): seq<Failure> {
    if events == [] then
      []
    else
      var r := events[|events| - 1].result;
      Errors(events[..|events| - 1]) + if r.Err? then [r.error] else []
  }

  ghost predicate NoZeroReads(events: seq<ReadEvent>) {
    forall i :: 0 <= i < |events| ==> events[i].amt != Some(0)
  }

  /** What a view has to do with the reads that led to it. */
  ghost predicate Accounts(body: bytes, contentLength: nat, events: seq<ReadEvent>, v: View) {
    && v.delivered == Delivered(events)
    && Errors(events) == (if v.failure.Some? then [v.failure.value] else [])
    && (!v.finalized ==> |events| <= v.consumed)
    && (v.finalized && NoZeroReads(events) ==> v.consumed == contentLength || v.consumed == |body|)
  }

  /** Every run keeps the stream consistent, delivers what its view says and raises at most one
      error. Every read but the one that finishes consumes at least a byte. */
  lemma {:induction false} RunInvariant(spec: CipherSpec, body: bytes, contentLength: nat, events: seq<ReadEvent>, v: View)
    requires Run(spec, body, contentLength, events, v)
    ensures Consistent(spec, body, contentLength, v)
    ensures Accounts(body, contentLength, events, v)
    decreases |events|
  {
    if events == [] {
      StartConsistent(spec, body, contentLength);
    } else {
      var n := |events| - 1;
      var last := events[n];
      var u :| Run(spec, body, contentLength, events[..n], u) && ReadStep(spec, body, contentLength, u, last.amt, v, last.result);
      RunInvariant(spec, body, contentLength, events[..n], u);
      ReadStepConsistent(spec, body, contentLength, u, last.amt, v, last.result);
      ReadStepExtends(spec, body, contentLength, u, last, v);
      AccountsStep(body, contentLength, events, u, v);
    }
  }

  /** What one step adds to what the caller has. */
  ghost predicate Extends(body: bytes, contentLength: nat, u: View, e: ReadEvent, v: View) {
    && v.delivered == u.delivered + (if e.result.Ok? then e.result.value else [])
    && v.failure == (if e.result.Ok? then u.failure else Some(e.result.error))
    && (e.result.Err? ==> u.failure == None)
    && (!v.finalized ==> !u.finalized && u.consumed < v.consumed)
    && (v.finalized && e.amt != Some(0) && !u.finalized ==> v.consumed == contentLength || v.consumed == |body|)
    && (u.finalized ==> v == u)
  }

  lemma ReadStepExtends(spec: CipherSpec, body: bytes, contentLength: nat, u: View, e: ReadEvent, v: View)
    requires ReadStep(spec, body, contentLength, u, e.amt, v, e.result)
    requires u.finalized || u.failure == None
    ensures Extends(body, contentLength, u, e, v)
  {
    assert u.delivered + [] == u.delivered;
  }

  lemma AccountsStep(body: bytes, contentLength: nat, events: seq<ReadEvent>, u: View, v: View)
    requires events != []
    requires Accounts(body, contentLength, events[..|events| - 1], u)
    requires Extends(body, contentLength, u, events[|events| - 1], v)
    ensures Accounts(body, contentLength, events, v)
  {
    var before, last := events[..|events| - 1], events[|events| - 1];
    assert Errors(before) + [] == Errors(before);
    assert NoZeroReads(events) ==> NoZeroReads(before) && last.amt != Some(0);
  }

  /** Safety for arbitrary bodies, announced lengths and read sizes: a stream that finished
      without an error consumed exactly the announced bytes and delivered their decryption;
      one that failed delivered only a prefix of what early release may show, and its one error
      is that of one-shot decryption, or the length check. */
  lemma FinishedRunOutcome(spec: CipherSpec, body: bytes, contentLength: nat, events: seq<ReadEvent>, v: View)
    requires Run(spec, body, contentLength, events, v) && v.finalized
    ensures v.consumed <= contentLength && v.consumed <= |body|
    ensures Errors(events) == [] <==>
            v.consumed == contentLength && spec.Whole(body[..v.consumed]).Ok?
    ensures Errors(events) == [] ==> spec.Whole(body[..v.consumed]) == Ok(Delivered(events))
    ensures Errors(events) != [] ==>
              && |Errors(events)| == 1
              && Delivered(events) <= spec.Released(body[..v.consumed])
              && match spec.Whole(body[..v.consumed]) {
                   case Err(e) => Errors(events)[0] == e
                   case Ok(_) => Errors(events)[0] == IncompleteRead
                 }
  {
    RunInvariant(spec, body, contentLength, events, v);
  }

  lemma ConsistentRefines(spec: CipherSpec, body: bytes, v: View)
    requires Consistent(spec, body, |body|, v)
    requires v.finalized ==> v.consumed == |body|
    ensures match spec.Whole(body) {
              case Ok(plaintext) =>
                && v.failure == None
                && v.delivered <= plaintext
                && (v.finalized ==> v.delivered == plaintext)
              case Err(e) =>
                && v.delivered <= spec.Released(body)
                && v.failure == if v.finalized then Some(e) else None
            }
  {
    var now := body[..v.consumed];
    assert body == now + body[v.consumed..];
    spec.ReleasedIsPrefix(now, body[v.consumed..]);
    if v.finalized {
      assert now == body;
    }
  }

  /** Streaming refines one-shot decryption: for a body of the announced length, every run of
      reads with sizes other than 0 delivers a prefix of the one-shot plaintext and all of it
      once finished, or the same one error; and no run goes on past |body| + 1 reads. */
  lemma StreamingRefinesOneShot(spec: CipherSpec, body: bytes, events: seq<ReadEvent>, v: View)
    requires Run(spec, body, |body|, events, v) && NoZeroReads(events)
    ensures match spec.Whole(body) {
              case Ok(plaintext) =>
                && Errors(events) == []
                && Delivered(events) <= plaintext
                && (v.finalized ==> Delivered(events) == plaintext)
              case Err(e) =>
                && Delivered(events) <= spec.Released(body)
                && Errors(events) == if v.finalized then [e] else []
            }
    ensures |events| > |body| ==> v.finalized
  {
    RunInvariant(spec, body, |body|, events, v);
    ConsistentRefines(spec, body, v);
  }

  /** A read that comes back empty, without an error, means the stream is finished. */
  lemma EmptyReadMeansFinished(spec: CipherSpec, body: bytes, contentLength: nat, events: seq<ReadEvent>, v: View)
    requires Run(spec, body, contentLength, events, v) && events != []
    requires events[|events| - 1].result == Ok([])
    ensures v.finalized
  {
  }

  /** read(0) is not harmless: it finishes the stream at once, and raises exactly when the
      stream was unfinished, even when no bytes were announced. */
  lemma ZeroSizedReadFails(spec: CipherSpec, body: bytes, contentLength: nat, events: seq<ReadEvent>,
                           v: View, v': View, r: Result<bytes, Failure>)
    requires Run(spec, body, contentLength, events, v)
    requires ReadStep(spec, body, contentLength, v, Some(0), v', r)
    ensures v'.finalized
    ensures r.Err? <==> !v.finalized
  {
    RunInvariant(spec, body, contentLength, events, v);
    if !v.finalized && contentLength == 0 {
      NothingOpens(spec, body[..v'.consumed]);
    }
  }

  lemma NothingOpens(spec: CipherSpec, body: bytes)
    requires |body| == 0
    ensures spec.Whole(body).Err?
  {
  }

  // ---- read() without a size ----

  /** Where the last read that does not finish the stream can end. */
  function LastOpenPosition(body: bytes, contentLength: nat): nat
    requires contentLength > 0
  {
    if |body| < contentLength then |body| else contentLength - 1
  }

  /** read() reads everything that is left, over every body and whatever the short reads, exactly
      when nothing more could come out before the last announced byte is in. */
  lemma UnsizedReadFinishesExactly(spec: CipherSpec, body: bytes, contentLength: nat, u: View)
    requires Consistent(spec, body, contentLength, u) && !u.finalized
    ensures (forall v, r :: ReadStep(spec, body, contentLength, u, None, v, r) ==> v.finalized) <==>
            contentLength == 0
            || spec.ReleasedLength(LastOpenPosition(body, contentLength)) == spec.ReleasedLength(u.consumed)
  {
    forall v, r | ReadStep(spec, body, contentLength, u, None, v, r) && !v.finalized
      ensures contentLength > 0
      ensures spec.ReleasedLength(LastOpenPosition(body, contentLength)) > spec.ReleasedLength(u.consumed)
    {
      spec.ReleasedLengthIs(body[..u.consumed]);
      spec.ReleasedLengthIs(body[..v.consumed]);
      spec.ReleasedLengthGrows(v.consumed, LastOpenPosition(body, contentLength));
    }
    if contentLength > 0 {
      var n := LastOpenPosition(body, contentLength);
      spec.ReleasedLengthGrows(u.consumed, n);
      if spec.ReleasedLength(n) > spec.ReleasedLength(u.consumed) {
        var v, out := StopAt(spec, body, contentLength, u, None, n);
        assert ReadStep(spec, body, contentLength, u, None, v, Ok(out));
      }
    }
  }

  /** A short read that ends at `n` makes a read stop there. */
  lemma StopAt(spec: CipherSpec, body: bytes, contentLength: nat, u: View, amt: Option<nat>, n: nat) returns (v: View, out: bytes)
    requires Consistent(spec, body, contentLength, u) && !u.finalized
    requires u.consumed < n < contentLength && n <= |body|
    requires spec.ReleasedLength(n) > spec.ReleasedLength(u.consumed)
    requires amt != Some(0) && (amt.Some? ==> n <= spec.ReleasedLength(u.consumed) + spec.HeldBack() + amt.value)
    ensures ReadStep(spec, body, contentLength, u, amt, v, Ok(out)) && !v.finalized && v.consumed == n
    ensures |out| == spec.ReleasedLength(n) - spec.ReleasedLength(u.consumed)
  {
    var before, now := body[..u.consumed], body[..n];
    ReleasedSoFar(spec, body, u.consumed, n);
    spec.ReleasedLengthIs(before);
    spec.ReleasedLengthIs(now);
    out := spec.Released(now)[|spec.Released(before)|..];
    v := View(n, false, u.delivered + out, None);
  }

  /** On a new stream that is: for AES-GCM bodies of up to 17 bytes, for CBC of up to 32. */
  lemma UnsizedFirstRead(spec: CipherSpec, body: bytes)
    ensures (forall v, r :: ReadStep(spec, body, |body|, START, None, v, r) ==> v.finalized) <==>
            |body| <= spec.HeldBack() + 1
  {
    StartConsistent(spec, body, |body|);
    UnsizedReadFinishesExactly(spec, body, |body|, START);
    FirstReadFinishes(spec, |body|);
  }

  // ---- Sizes of results ----

  /** Whether every read of size `amt` that does not finish the stream returns exactly `amt` bytes. */
  ghost predicate SizeIsExact(spec: CipherSpec, body: bytes, contentLength: nat, u: View, amt: nat) {
    forall v, r :: ReadStep(spec, body, contentLength, u, Some(amt), v, r) && !v.finalized ==> r.Ok? && |r.value| == amt
  }

  /** A read has the size asked for, whatever the short reads, exactly when that size is one unit of
      the cipher (a byte for AES-GCM, a block for CBC) or the stream cannot but finish. */
  lemma SizeIsExactExactly(spec: CipherSpec, body: bytes, contentLength: nat, u: View, amt: nat)
    requires Consistent(spec, body, contentLength, u) && !u.finalized && amt > 0
    ensures SizeIsExact(spec, body, contentLength, u, amt) <==>
            || amt == spec.Unit()
            || contentLength == 0
            || spec.ReleasedLength(LastOpenPosition(body, contentLength)) == spec.ReleasedLength(u.consumed)
  {
    forall v, r | ReadStep(spec, body, contentLength, u, Some(amt), v, r) && !v.finalized
      ensures contentLength > 0
      ensures spec.ReleasedLength(LastOpenPosition(body, contentLength)) > spec.ReleasedLength(u.consumed)
      ensures amt == spec.Unit() ==> |r.value| == amt
    {
      spec.ReleasedLengthIs(body[..u.consumed]);
      spec.ReleasedLengthIs(body[..v.consumed]);
      spec.ReleasedLengthGrows(v.consumed, LastOpenPosition(body, contentLength));
      if amt == spec.Unit() {
        UnitRoundIsExact(spec, body, contentLength, u, v, r);
      }
    }
    if contentLength > 0 && amt != spec.Unit() {
      UnitComesFirst(spec, body, contentLength, u, amt);
    }
  }

  /** Otherwise a short read can stop where the first unit comes out. */
  lemma UnitComesFirst(spec: CipherSpec, body: bytes, contentLength: nat, u: View, amt: nat)
    requires Consistent(spec, body, contentLength, u) && !u.finalized && amt > 0 && amt != spec.Unit() && contentLength > 0
    ensures SizeIsExact(spec, body, contentLength, u, amt) ==>
            spec.ReleasedLength(LastOpenPosition(body, contentLength)) == spec.ReleasedLength(u.consumed)
  {
    var n := LastOpenPosition(body, contentLength);
    spec.ReleasedLengthGrows(u.consumed, n);
    if spec.ReleasedLength(n) > spec.ReleasedLength(u.consumed) {
      var m := spec.ReleasedLength(u.consumed) + spec.HeldBack() + 1;
      spec.FirstRelease(u.consumed);
      spec.HoldsBackAtMost(u.consumed);
      if n < m {
        spec.NothingMore(u.consumed, n);
      }
      var v, out := StopAt(spec, body, contentLength, u, Some(amt), m);
      assert ReadStep(spec, body, contentLength, u, Some(amt), v, Ok(out)) && |out| == spec.Unit();
    }
  }

  /** On a new stream: chunks of the size asked for are sure exactly for that one size, or when the
      body is so short that the first read finishes it. */
  lemma FirstSizeIsExact(spec: CipherSpec, body: bytes, amt: nat)
    requires amt > 0
    ensures SizeIsExact(spec, body, |body|, START, amt) <==> amt == spec.Unit() || |body| <= spec.HeldBack() + 1
  {
    StartConsistent(spec, body, |body|);
    SizeIsExactExactly(spec, body, |body|, START, amt);
    FirstReadFinishes(spec, |body|);
  }

  /** Nothing comes out before the last byte exactly of short bodies. */
  lemma FirstReadFinishes(spec: CipherSpec, size: nat)
    ensures size == 0 || spec.ReleasedLength(size - 1) == spec.ReleasedLength(0) <==> size <= spec.HeldBack() + 1
  {
    if size > 0 {
      spec.HoldsBackAtMost(0);
      spec.HoldsBackAtMost(size - 1);
      if size > spec.HeldBack() + 1 {
        spec.HoldsBackAtMost(spec.HeldBack());
        spec.ReleasedLengthGrows(spec.HeldBack() + 1, size - 1);
      }
    }
  }

  /** A read of any size other than 0 can come back short long before the end: over any AES-GCM
      body longer than one tag and one byte, the first read may return a single byte. */
  lemma ReadCanStopShort(gcm: Gcm, body: bytes, amt: Option<nat>)
    requires |body| > TAG_LENGTH + 1 && amt != Some(0)
    ensures exists v, r :: ReadStep(GcmSpec(gcm), body, |body|, START, amt, v, r) && !v.finalized && r.Ok? && |r.value| == 1
  {
    var out := gcm.Mask(0, body[..1]);
    var n := TAG_LENGTH + 1;
    assert body[..0] == [] && body[..n][..1] == body[..1];
    assert [] + out == out;
    assert GcmSpec(gcm).Released(body[..0]) == [];
    assert ReadStep(GcmSpec(gcm), body, |body|, START, amt, View(n, false, out, None), Ok(out));
  }

  /** For CBC a read can return more than it was asked for: on a new stream over more than two
      blocks, read(1) always returns a whole block. */
  lemma CbcReadOvershoots(cbc: Cbc, body: bytes, v: View, r: Result<bytes, Failure>)
    requires |body| > 2 * BLOCK
    requires ReadStep(CbcSpec(cbc), body, |body|, START, Some(1), v, r)
    ensures !v.finalized && r.Ok? && |r.value| == BLOCK && v.consumed == 2 * BLOCK
  {
    var spec := CbcSpec(cbc);
    spec.NothingReleased(body[..START.consumed]);
    spec.ReleasedLengthIs(body[..v.consumed]);
  }

  /** No result is longer than what its read asked for, by more than the cipher's overshoot. */
  ghost predicate WithinSizes(spec: CipherSpec, events: seq<ReadEvent>) {
    events != [] ==>
      var last := events[|events| - 1];
      && (last.amt.Some? && last.result.Ok? ==> |last.result.value| <= last.amt.value + spec.Overshoot())
      && WithinSizes(spec, events[..|events| - 1])
  }

  /** In every run a read of size n returns at most n bytes for AES-GCM, and n + 30 for CBC. */
  lemma {:induction false} ReadsAreBounded(spec: CipherSpec, body: bytes, contentLength: nat, events: seq<ReadEvent>, v: View)
    requires Run(spec, body, contentLength, events, v)
    ensures WithinSizes(spec, events)
    decreases |events|
  {
    if events != [] {
      var n := |events| - 1;
      var last := events[n];
      var u :| Run(spec, body, contentLength, events[..n], u)
               && ReadStep(spec, body, contentLength, u, last.amt, v, last.result);
      ReadsAreBounded(spec, body, contentLength, events[..n], u);
      if last.amt.Some? && !u.finalized {
        RoundWithinSize(spec, body, contentLength, u, last.amt.value, v, last.result);
      }
    }
  }

  /** The bound is met: when all but the last byte of three CBC blocks are in and one byte of
      padding follows, read(1) returns 31 bytes. */
  lemma OvershootIsReached(cbc: Cbc, body: bytes, u: View, v: View, r: Result<bytes, Failure>)
    requires |body| == 3 * BLOCK && CbcSpec(cbc).Whole(body).Ok? && |CbcSpec(cbc).Whole(body).value| == |body| - 1
    requires Consistent(CbcSpec(cbc), body, |body|, u) && !u.finalized && u.consumed == |body| - 1
    requires ReadStep(CbcSpec(cbc), body, |body|, u, Some(1), v, r)
    ensures r.Ok? && |r.value| == 1 + CbcSpec(cbc).Overshoot()
  {
    CbcSpec(cbc).ReleasedLengthIs(body[..u.consumed]);
    assert body[..|body|] == body;
  }

  // ---- The specification of a read is exact ----

  /** Reads byte by byte up to `p`, then on to `n`. */
  function StopOnTheWay(p: nat, n: nat): Schedule {
    (q: nat) => if q < p || n <= q then 1 else n - q
  }

  lemma ChunkEndsAt(body: bytes, contentLength: nat, p: nat, n: nat, w: nat, amt: Option<nat>)
    requires w <= p < n <= |body| && n <= contentLength && amt != Some(0)
    ensures w < p ==> ChunkEnd(body, contentLength, StopOnTheWay(p, n), w, amt) == w + 1
    ensures amt.Some? ==> n <= p + amt.value ==> ChunkEnd(body, contentLength, StopOnTheWay(p, n), p, amt) == n
    ensures amt.None? ==> ChunkEnd(body, contentLength, StopOnTheWay(p, n), p, amt) == n
  {
  }

  /** A round that releases nothing is passed over. */
  lemma SilentStep(spec: CipherSpec, body: bytes, contentLength: nat, now: View, amt: Option<nat>, schedule: Schedule, n: nat)
    requires Running(body, contentLength, now)
    requires n == ChunkEnd(body, contentLength, schedule, now.consumed, amt) && now.consumed < n < contentLength
    requires spec.ReleasedLength(n) == spec.ReleasedLength(now.consumed)
    ensures ReadWith(spec, body, contentLength, schedule, now, amt)
            == ReadWith(spec, body, contentLength, schedule, now.(consumed := n), amt)
  {
    spec.ReleasedLengthIs(body[..now.consumed]);
    spec.ReleasedLengthIs(body[..n]);
    assert Newly(spec, body, now.consumed, n) == [];
    assert now.delivered + [] == now.delivered;
  }

  /** A round that finishes, or releases something, is the whole read. */
  lemma FinishingRound(spec: CipherSpec, body: bytes, contentLength: nat, now: View, amt: Option<nat>, schedule: Schedule, n: nat)
    requires Running(body, contentLength, now)
    requires n == ChunkEnd(body, contentLength, schedule, now.consumed, amt) && (n == now.consumed || n == contentLength)
    ensures ReadWith(spec, body, contentLength, schedule, now, amt) == FinishAt(spec, body, contentLength, now, n)
  {
  }

  lemma ReleasingRound(spec: CipherSpec, body: bytes, contentLength: nat, now: View, amt: Option<nat>, schedule: Schedule, n: nat)
    requires Running(body, contentLength, now)
    requires n == ChunkEnd(body, contentLength, schedule, now.consumed, amt) && now.consumed < n < contentLength
    requires Newly(spec, body, now.consumed, n) != []
    ensures var out := Newly(spec, body, now.consumed, n);
            ReadWith(spec, body, contentLength, schedule, now, amt)
            == (View(n, false, now.delivered + out, now.failure), Ok(out))
  {
  }

  lemma WalksOn(spec: CipherSpec, body: bytes, contentLength: nat, now: View, amt: nat, p: nat, n: nat)
    requires !now.finalized && now.consumed < p < n <= |body| && n <= contentLength && amt > 0
    requires spec.ReleasedLength(now.consumed + 1) == spec.ReleasedLength(now.consumed)
    ensures var schedule := StopOnTheWay(p, n);
            ReadWith(spec, body, contentLength, schedule, now, Some(amt))
            == ReadWith(spec, body, contentLength, schedule, now.(consumed := now.consumed + 1), Some(amt))
  {
    ChunkEndsAt(body, contentLength, p, n, now.consumed, Some(amt));
    SilentStep(spec, body, contentLength, now, Some(amt), StopOnTheWay(p, n), now.consumed + 1);
  }

  /** Byte by byte, while nothing is released, a read gets from `w` to `p`. */
  lemma {:induction false} WalksTo(spec: CipherSpec, body: bytes, contentLength: nat, u: View, amt: nat, p: nat, n: nat, w: nat)
    requires !u.finalized && u.consumed <= w <= p < n <= |body| && n <= contentLength && amt > 0
    requires p <= spec.ReleasedLength(u.consumed) + spec.HeldBack()
    ensures var schedule := StopOnTheWay(p, n);
            ReadWith(spec, body, contentLength, schedule, u.(consumed := w), Some(amt))
            == ReadWith(spec, body, contentLength, schedule, u.(consumed := p), Some(amt))
    decreases p - w
  {
    if w < p {
      spec.NothingMore(u.consumed, w);
      spec.NothingMore(u.consumed, w + 1);
      WalksOn(spec, body, contentLength, u.(consumed := w), amt, p, n);
      WalksTo(spec, body, contentLength, u, amt, p, n, w + 1);
    }
  }

  lemma LastRound(spec: CipherSpec, body: bytes, contentLength: nat, now: View, amt: Option<nat>,
                  v: View, r: Result<bytes, Failure>)
    requires Running(body, contentLength, now) && amt != Some(0)
    requires Round(spec, body, contentLength, now, None, v, r) && (v.finalized || r.value != [])
    requires amt.Some? ==> v.consumed <= now.consumed + amt.value
    ensures ReadWith(spec, body, contentLength, StopOnTheWay(now.consumed, v.consumed), now, amt) == (v, r)
  {
    var p, n := now.consumed, v.consumed;
    var schedule := StopOnTheWay(p, n);
    if p < n {
      ChunkEndsAt(body, contentLength, p, n, p, amt);
    }
    if !v.finalized {
      NewlyIs(spec, body, p, n, r.value);
      ReleasingRound(spec, body, contentLength, now, amt, schedule, n);
    } else if p == n || n == contentLength {
      FinishedAt(spec, body, contentLength, now, n, r);
      FinishingRound(spec, body, contentLength, now, amt, schedule, n);
    } else {
      SameReleased(spec, body, p, n);
      SilentStep(spec, body, contentLength, now, amt, schedule, n);
      FinishedAt(spec, body, contentLength, now.(consumed := n), n, r);
      FinishingRound(spec, body, contentLength, now.(consumed := n), amt, schedule, n);
    }
  }

  /** A step seen from a later position at which nothing more had come out. */
  lemma StepFrom(spec: CipherSpec, body: bytes, contentLength: nat, u: View, amt: Option<nat>,
                 v: View, r: Result<bytes, Failure>, p: nat)
    requires Round(spec, body, contentLength, u, amt, v, r) && amt != Some(0)
    requires u.consumed <= p <= v.consumed && spec.ReleasedLength(p) == spec.ReleasedLength(u.consumed)
    requires p == v.consumed ==> p == u.consumed
    ensures Round(spec, body, contentLength, u.(consumed := p), None, v, r)
  {
    SameReleased(spec, body, u.consumed, p);
  }

  lemma SameReleased(spec: CipherSpec, body: bytes, i: nat, j: nat)
    requires i <= j <= |body| && spec.ReleasedLength(i) == spec.ReleasedLength(j)
    ensures spec.Released(body[..i]) == spec.Released(body[..j])
  {
    ReleasedSoFar(spec, body, i, j);
    spec.ReleasedLengthIs(body[..i]);
    spec.ReleasedLengthIs(body[..j]);
  }

  /** `ReadStep` allows exactly what read() can do: whatever the schedule of short reads, a read is
      such a step, and every such step is what read() does under some schedule. */
  lemma ReadStepsAreReads(spec: CipherSpec, body: bytes, contentLength: nat, u: View, amt: Option<nat>,
                          v: View, r: Result<bytes, Failure>)
    requires Consistent(spec, body, contentLength, u)
    ensures ReadStep(spec, body, contentLength, u, amt, v, r) <==>
            exists schedule: Schedule :: ReadWith(spec, body, contentLength, schedule, u, amt) == (v, r)
  {
    if ReadStep(spec, body, contentLength, u, amt, v, r) {
      var schedule := ScheduleFor(spec, body, contentLength, u, amt, v, r);
      assert ReadWith(spec, body, contentLength, schedule, u, amt) == (v, r);
    }
    forall schedule: Schedule | ReadWith(spec, body, contentLength, schedule, u, amt) == (v, r)
      ensures ReadStep(spec, body, contentLength, u, amt, v, r)
    {
      ReadWithIsStep(spec, body, contentLength, schedule, u, amt);
    }
  }

  lemma ScheduleFor(spec: CipherSpec, body: bytes, contentLength: nat, u: View, amt: Option<nat>,
                    v: View, r: Result<bytes, Failure>) returns (schedule: Schedule)
    requires Consistent(spec, body, contentLength, u) && ReadStep(spec, body, contentLength, u, amt, v, r)
    ensures ReadWith(spec, body, contentLength, schedule, u, amt) == (v, r)
  {
    schedule := StopOnTheWay(0, 0);
    if !u.finalized {
      if amt == Some(0) {
        FinishedAt(spec, body, contentLength, u, u.consumed, r);
      } else {
        var far := amt.Some? && v.consumed - u.consumed > amt.value;
        var p := if far then v.consumed - amt.value else u.consumed;
        spec.ReleasedLengthIs(body[..u.consumed]);
        spec.HoldsBackAtMost(u.consumed);
        if far {
          WalksTo(spec, body, contentLength, u, amt.value, p, v.consumed, u.consumed);
        }
        spec.NothingMore(u.consumed, p);
        StepFrom(spec, body, contentLength, u, amt, v, r, p);
        LastRound(spec, body, contentLength, u.(consumed := p), amt, v, r);
        schedule := StopOnTheWay(p, v.consumed);
        assert u == View(u.consumed, false, u.delivered, u.failure);
      }
    }
  }

  lemma {:induction false} ReadWithIsStep(spec: CipherSpec, body: bytes, contentLength: nat, schedule: Schedule,
                                          u: View, amt: Option<nat>)
    requires u.finalized || Running(body, contentLength, u)
    ensures var (v, r) := ReadWith(spec, body, contentLength, schedule, u, amt);
            ReadStep(spec, body, contentLength, u, amt, v, r)
    decreases contentLength - u.consumed
  {
    if !u.finalized {
      var (w, out) := RoundWith(spec, body, contentLength, schedule, u, amt);
      RoundWithIsRound(spec, body, contentLength, schedule, u, amt);
      if !w.finalized && out.value == [] {
        ReadWithIsStep(spec, body, contentLength, schedule, w, amt);
        var (v, r) := ReadWith(spec, body, contentLength, schedule, w, amt);
        RoundsMerge(spec, body, contentLength, u, amt, w, v, r);
      }
    }
  }

  /** Reading a new stream again and again, with any sizes, is a run. */
  method ReadAgain(stream: DecryptingStream, sizes: seq<Option<nat>>) returns (events: seq<ReadEvent>)
    requires stream.Valid() && stream.Snapshot() == START
    modifies stream, stream.body, stream.decryptor.Object()
    ensures stream.Valid() && Run(stream.spec, stream.body.data, stream.contentLength, events, stream.Snapshot())
    ensures |events| == |sizes| && forall i :: 0 <= i < |sizes| ==> events[i].amt == sizes[i]
  {
    events := [];
    for i := 0 to |sizes|
      invariant stream.Valid() && Run(stream.spec, stream.body.data, stream.contentLength, events, stream.Snapshot())
      invariant |events| == i && forall j :: 0 <= j < i ==> events[j].amt == sizes[j]
    {
      ghost var before, u := events, stream.Snapshot();
      var r := stream.Read(sizes[i]);
      events := events + [ReadEvent(sizes[i], r)];
      RunGoesOn(stream.spec, stream.body.data, stream.contentLength, before, u, ReadEvent(sizes[i], r), stream.Snapshot());
    }
  }

  lemma RunGoesOn(spec: CipherSpec, body: bytes, contentLength: nat, events: seq<ReadEvent>, u: View, e: ReadEvent, v: View)
    requires Run(spec, body, contentLength, events, u) && ReadStep(spec, body, contentLength, u, e.amt, v, e.result)
    ensures Run(spec, body, contentLength, events + [e], v)
  {
    var all := events + [e];
    assert all[..|all| - 1] == events && all[|all| - 1] == e;
  }
}
