/** Many threads on one client: creating, uploading to, completing and aborting any number of
    multipart uploads. The upload table and each pipeline have their own lock; a pipeline's
    locked section is taken statement by statement, and anything may happen between two
    statements. The final flag is read without a lock. */
module ConcurrentUploads {
  import opened Wrappers
  import opened AesGcm
  import opened Chunks
  import opened Multipart

  type UploadId = string

  /** A pipeline object: the upload it was created for, its cipher, the thread that holds its
      lock, and its fields. */
  datatype Pipeline = Pipeline(id: UploadId, gcm: Gcm, holder: Option<nat>, state: PipelineState)

  /** Where a thread stands inside a client call. Pipelines are referred to by index. */
  datatype Thread =
    | Idle
    | Waiting(pipe: nat, call: PartCall)                          // upload_part: before the pipeline's lock
    | Inside(pipe: nat, call: PartCall, at: Section)              // upload_part: holding it
    | Sending(pipe: nat, number: int, body: Option<bytes>)        // upload_part: part encrypted
    | Checking(pipe: nat)                                         // complete: pipeline looked up
    | Finishing(pipe: nat)                                        // complete: final flag seen
    | Removing(pipe: nat)                                         // complete: S3 has completed
    | Aborting(id: UploadId)                                      // abort: removed from the table

  /** An object S3 assembled, and the part numbers it was assembled from. */
  datatype Object = Object(numbers: seq<int>, data: bytes)

  datatype State = State(
    pipes: seq<Pipeline>,
    table: map<UploadId, nat>,
    threads: map<nat, Thread>,                   // threads not listed are idle
    issued: set<UploadId>,                       // every id S3 ever returned
    active: set<UploadId>,                       // uploads S3 has open
    stored: map<(UploadId, int), bytes>,         // parts S3 holds
    objects: map<UploadId, Object>               // what completed uploads became
  ) {
    function At(t: nat): Thread {
      if t in threads then threads[t] else Idle
    }

    function Goto(t: nat, pc: Thread): State {
      this.(threads := threads[t := pc])
    }

    function SetPipe(k: nat, p: Pipeline): State
      requires k < |pipes|
    {
      this.(pipes := pipes[k := p])
    }
  }

  const INITIAL := State([], map[], map[], {}, {}, map[], map[])

  /** What a thread may do next. `ok` says whether a call to S3 succeeds. */
  datatype Action =
    | Create(id: UploadId, gcm: Gcm)
    | StartPart(id: UploadId, call: PartCall)
    | Enter
    | Proceed
    | Leave
    | Send(ok: bool)
    | StartComplete(id: UploadId)
    | CheckFinal
    | Finish(numbers: seq<int>, ok: bool)
    | Remove
    | StartAbort(id: UploadId)
    | AbortAtS3(ok: bool)

  /** One atomic step of thread `t`. An action the thread is not at changes nothing. */
  function Apply(s: State, t: nat, a: Action): State {
    var pc := s.At(t);
    match a
    case Create(id, gcm) => if pc.Idle? then AfterCreate(s, id, gcm) else s
    case StartPart(id, call) => if pc.Idle? && id in s.table then s.Goto(t, Waiting(s.table[id], call)) else s
    case Enter => if pc.Waiting? && pc.pipe < |s.pipes| then AfterEnter(s, t, pc.pipe, pc.call) else s
    case Proceed =>
      if pc.Inside? && !pc.at.Leaving? && pc.pipe < |s.pipes| then AfterProceed(s, t, pc.pipe, pc.call, pc.at) else s
    case Leave =>
      if pc.Inside? && pc.at.Leaving? && pc.pipe < |s.pipes| then AfterLeave(s, t, pc.pipe, pc.call, pc.at.result) else s
    case Send(ok) => if pc.Sending? && pc.pipe < |s.pipes| then AfterSend(s, t, pc, ok) else s
    case StartComplete(id) => if pc.Idle? && id in s.table then s.Goto(t, Checking(s.table[id])) else s
    case CheckFinal =>
      if pc.Checking? && pc.pipe < |s.pipes| then
        s.Goto(t, if s.pipes[pc.pipe].state.hasFinalPartBeenSeen then Finishing(pc.pipe) else Idle)
      else s
    case Finish(numbers, ok) => if pc.Finishing? && pc.pipe < |s.pipes| then AfterFinish(s, t, pc.pipe, numbers, ok) else s
    case Remove =>
      if pc.Removing? && pc.pipe < |s.pipes| then s.(table := s.table - {s.pipes[pc.pipe].id}).Goto(t, Idle) else s
    case StartAbort(id) => if pc.Idle? then s.(table := s.table - {id}).Goto(t, Aborting(id)) else s
    case AbortAtS3(ok) =>
      if pc.Aborting? then (if ok then s.(active := s.active - {pc.id}) else s).Goto(t, Idle) else s
  }

  /** S3 opened an upload under an id it never returned before. */
  function AfterCreate(s: State, id: UploadId, gcm: Gcm): State {
    if id in s.issued then s else
    s.(pipes := s.pipes + [Pipeline(id, gcm, None, NewPipeline(gcm))], table := s.table[id := |s.pipes|],
       issued := s.issued + {id}, active := s.active + {id})
  }

  /** Take the pipeline's lock, when it is free. */
  function AfterEnter(s: State, t: nat, pipe: nat, call: PartCall): State
    requires pipe < |s.pipes|
  {
    if s.pipes[pipe].holder != None then s
    else s.SetPipe(pipe, s.pipes[pipe].(holder := Some(t))).Goto(t, Inside(pipe, call, Entered))
  }

  /** One statement of the locked section. */
  function AfterProceed(s: State, t: nat, pipe: nat, call: PartCall, at: Section): State
    requires pipe < |s.pipes|
  {
    var (state, next) := SectionStep(s.pipes[pipe].state, call, at);
    s.SetPipe(pipe, s.pipes[pipe].(state := state)).Goto(t, Inside(pipe, call, next))
  }

  /** Release the lock, with a body to send or an error. */
  function AfterLeave(s: State, t: nat, pipe: nat, call: PartCall, result: Result<Option<bytes>, PartError>): State
    requires pipe < |s.pipes|
  {
    s.SetPipe(pipe, s.pipes[pipe].(holder := None))
     .Goto(t, if result.Ok? then Sending(pipe, call.number, result.value) else Idle)
  }

  /** S3 stores the part, or the call fails. */
  function AfterSend(s: State, t: nat, pc: Thread, ok: bool): State
    requires pc.Sending? && pc.pipe < |s.pipes|
  {
    var id := s.pipes[pc.pipe].id;
    (if ok && pc.body.Some? && id in s.active then s.(stored := s.stored[(id, pc.number) := pc.body.value]) else s)
    .Goto(t, Idle)
  }

  /** S3 assembles the listed parts and closes the upload, or the call fails. */
  function AfterFinish(s: State, t: nat, pipe: nat, numbers: seq<int>, ok: bool): State
    requires pipe < |s.pipes|
  {
    var id := s.pipes[pipe].id;
    if ok && id in s.active && AllStored(s.stored, id, numbers) then
      s.(active := s.active - {id}, objects := s.objects[id := Object(numbers, Assemble(s.stored, id, numbers))])
       .Goto(t, Removing(pipe))
    else
      s.Goto(t, Idle)
  }

  predicate AllStored(stored: map<(UploadId, int), bytes>, id: UploadId, numbers: seq<int>) {
    forall i :: 0 <= i < |numbers| ==> (id, numbers[i]) in stored
  }

  function Assemble(stored: map<(UploadId, int), bytes>, id: UploadId, numbers: seq<int>): bytes
    requires AllStored(stored, id, numbers)
  {
    Concat(StoredPieces(stored, id, numbers))
  }

  function StoredPieces(stored: map<(UploadId, int), bytes>, id: UploadId, numbers: seq<int>): seq<bytes>
    requires AllStored(stored, id, numbers)
  {
    seq(|numbers|, i requires 0 <= i < |numbers| => stored[(id, numbers[i])])
  }

  /** The state after any interleaving of the threads' steps. */
  function Execute(schedule: seq<(nat, Action)>): State {
    if schedule == [] then
      INITIAL
    else
      var (t, a) := schedule[|schedule| - 1];
      Apply(Execute(schedule[..|schedule| - 1]), t, a)
  }

  // ---- The invariant ----

  /** `body` is what part `number` of this pipeline's one encryption looks like. */
  ghost predicate IsPart(p: Pipeline, number: int, body: bytes) {
    1 <= number <= |p.state.upload.parts| && body == Ciphertext(p.gcm, p.state.upload, number - 1)
  }

  /** Whoever sees the flag sees a finished upload: its tag was computed over all of it. */
  ghost predicate FlagSeen(p: Pipeline) {
    && p.state.hasFinalPartBeenSeen
    && p.state.upload.final && p.state.upload.parts != [] && p.state.encryptor.finalized
    && p.state.encryptor.Enciphered(Concat(p.state.upload.parts))
  }

  ghost predicate ThreadOk(pipes: seq<Pipeline>, t: nat, pc: Thread) {
    match pc
    case Idle => true
    case Aborting(_) => true
    case Waiting(pipe, _) => pipe < |pipes|
    case Inside(pipe, call, at) =>
      pipe < |pipes| && pipes[pipe].holder == Some(t) && Midway(pipes[pipe].gcm, pipes[pipe].state, call, at)
    case Sending(pipe, number, body) =>
      pipe < |pipes| && (body.Some? ==> IsPart(pipes[pipe], number, body.value))
    case Checking(pipe) => pipe < |pipes|
    case Finishing(pipe) => pipe < |pipes| && FlagSeen(pipes[pipe])
    case Removing(pipe) => pipe < |pipes| && FlagSeen(pipes[pipe])
  }

  ghost predicate ThreadsOk(s: State) {
    forall t :: ThreadOk(s.pipes, t, s.At(t))
  }

  /** A free pipeline is between calls; a held one is where its holder stands. */
  ghost predicate LockOk(s: State, k: nat)
    requires k < |s.pipes|
  {
    match s.pipes[k].holder
    case None => Settled(s.pipes[k].gcm, s.pipes[k].state)
    case Some(t) => s.At(t).Inside? && s.At(t).pipe == k
  }

  ghost predicate LocksOk(s: State) {
    forall k :: 0 <= k < |s.pipes| ==> LockOk(s, k)
  }

  ghost predicate StoredOk(pipes: seq<Pipeline>, id: UploadId, number: int, body: bytes) {
    forall k :: 0 <= k < |pipes| && pipes[k].id == id ==> IsPart(pipes[k], number, body)
  }

  /** The object is made of this upload's parts and nothing else, and the upload was final. */
  ghost predicate MadeOf(p: Pipeline, o: Object) {
    && p.state.upload.final && p.state.upload.parts != []
    && (forall i :: 0 <= i < |o.numbers| ==> 1 <= o.numbers[i] <= |p.state.upload.parts|)
    && o.data == Concat(Pieces(p, o.numbers))
  }

  ghost function Pieces(p: Pipeline, numbers: seq<int>): seq<bytes>
    requires forall i :: 0 <= i < |numbers| ==> 1 <= numbers[i] <= |p.state.upload.parts|
  {
    seq(|numbers|, i requires 0 <= i < |numbers| => Ciphertext(p.gcm, p.state.upload, numbers[i] - 1))
  }

  ghost predicate ObjectOk(pipes: seq<Pipeline>, id: UploadId, o: Object) {
    forall k :: 0 <= k < |pipes| && pipes[k].id == id ==> MadeOf(pipes[k], o)
  }

  ghost predicate PipesOk(s: State) {
    && (forall k :: 0 <= k < |s.pipes| ==> s.pipes[k].id in s.issued)
    && (forall j, k :: 0 <= j < k < |s.pipes| ==> s.pipes[j].id != s.pipes[k].id)
    && (forall id :: id in s.table ==> s.table[id] < |s.pipes| && s.pipes[s.table[id]].id == id)
  }

  ghost predicate S3Ok(s: State) {
    && (forall id, n :: (id, n) in s.stored ==> id in s.issued && StoredOk(s.pipes, id, n, s.stored[(id, n)]))
    && (forall id :: id in s.objects ==> id in s.issued && ObjectOk(s.pipes, id, s.objects[id]))
  }

  ghost predicate Invariant(s: State) {
    PipesOk(s) && LocksOk(s) && ThreadsOk(s) && S3Ok(s)
  }

  /** How a pipeline may differ after a step. */
  ghost predicate Grows(p: Pipeline, p': Pipeline) {
    p'.id == p.id && p'.gcm == p.gcm && Extends(p.gcm, p.state, p'.state)
  }

  lemma GrowsKeepsPart(p: Pipeline, p': Pipeline, number: int, body: bytes)
    requires Grows(p, p') && IsPart(p, number, body)
    ensures IsPart(p', number, body)
  {
    assert Ciphertexts(p.gcm, p.state.upload)[number - 1] == Ciphertexts(p'.gcm, p'.state.upload)[number - 1];
  }

  /** What another thread holds stays right when one pipeline grows under its lock. */
  lemma GrowthKeepsThread(pipes: seq<Pipeline>, k: nat, p': Pipeline, u: nat, pc: Thread)
    requires k < |pipes| && Grows(pipes[k], p') && ThreadOk(pipes, u, pc)
    requires pc.Inside? ==> pc.pipe != k
    ensures ThreadOk(pipes[k := p'], u, pc)
  {
    if pc.Sending? && pc.pipe == k && pc.body.Some? {
      GrowsKeepsPart(pipes[k], p', pc.number, pc.body.value);
    }
  }

  lemma GrowthKeepsS3(s: State, k: nat, p': Pipeline)
    requires k < |s.pipes| && Grows(s.pipes[k], p') && S3Ok(s)
    ensures S3Ok(s.SetPipe(k, p'))
  {
    var pipes := s.pipes[k := p'];
    forall id, n | (id, n) in s.stored
      ensures StoredOk(pipes, id, n, s.stored[(id, n)])
    {
      assert StoredOk(s.pipes, id, n, s.stored[(id, n)]);
      if s.pipes[k].id == id {
        GrowsKeepsPart(s.pipes[k], p', n, s.stored[(id, n)]);
      }
    }
    forall id | id in s.objects
      ensures ObjectOk(pipes, id, s.objects[id])
    {
      assert ObjectOk(s.pipes, id, s.objects[id]);
      if s.pipes[k].id == id {
        assert MadeOf(s.pipes[k], s.objects[id]) && p'.state.upload == s.pipes[k].state.upload;
      }
    }
  }

  /** A thread outside every lock moves on. */
  lemma GotoKeepsInvariant(s: State, t: nat, pc: Thread)
    requires Invariant(s) && !s.At(t).Inside? && !pc.Inside? && ThreadOk(s.pipes, t, pc)
    ensures Invariant(s.Goto(t, pc))
  {
    var s' := s.Goto(t, pc);
    forall u
      ensures ThreadOk(s'.pipes, u, s'.At(u))
    {
      assert u != t ==> s'.At(u) == s.At(u);
    }
    forall k | 0 <= k < |s.pipes|
      ensures LockOk(s', k)
    {
      assert LockOk(s, k);
    }
  }

  /** A thread works on the pipeline whose lock it takes, holds or releases. */
  lemma LockedStepKeepsInvariant(s: State, t: nat, k: nat, p': Pipeline, pc: Thread)
    requires Invariant(s) && k < |s.pipes| && Grows(s.pipes[k], p')
    requires s.pipes[k].holder == None || s.pipes[k].holder == Some(t)
    requires s.At(t).Inside? ==> s.At(t).pipe == k
    requires ThreadOk(s.pipes[k := p'], t, pc) && (pc.Inside? ==> pc.pipe == k)
    requires if pc.Inside? then p'.holder == Some(t) else p'.holder == None && Settled(p'.gcm, p'.state)
    ensures Invariant(s.SetPipe(k, p').Goto(t, pc))
  {
    var s1 := s.SetPipe(k, p');
    var s' := s1.Goto(t, pc);
    forall u
      ensures ThreadOk(s'.pipes, u, s'.At(u))
    {
      if u != t {
        assert ThreadOk(s.pipes, u, s.At(u));
        GrowthKeepsThread(s.pipes, k, p', u, s.At(u));
      }
    }
    forall j | 0 <= j < |s.pipes|
      ensures LockOk(s', j)
    {
      assert LockOk(s, j);
    }
    GrowthKeepsS3(s, k, p');
  }

  lemma CreateKeepsInvariant(s: State, id: UploadId, gcm: Gcm)
    requires Invariant(s)
    ensures Invariant(AfterCreate(s, id, gcm))
  {
    if id !in s.issued {
      var s' := AfterCreate(s, id, gcm);
      NewIsSettled(gcm);
      assert forall k :: 0 <= k < |s.pipes| ==> s'.pipes[k] == s.pipes[k];
      forall u
        ensures ThreadOk(s'.pipes, u, s'.At(u))
      {
        assert ThreadOk(s.pipes, u, s.At(u));
      }
      forall k | 0 <= k < |s'.pipes|
        ensures LockOk(s', k)
      {
        assert k < |s.pipes| ==> LockOk(s, k);
      }
      NewPipeKeepsS3(s, s');
    }
  }

  lemma NewIsSettled(gcm: Gcm)
    ensures Settled(gcm, NewPipeline(gcm))
  {
  }

  lemma NewPipeKeepsS3(s: State, s': State)
    requires S3Ok(s) && s.issued <= s'.issued && s'.stored == s.stored && s'.objects == s.objects
    requires |s'.pipes| == |s.pipes| + 1 && s'.pipes[..|s.pipes|] == s.pipes && s'.pipes[|s.pipes|].id !in s.issued
    ensures S3Ok(s')
  {
    assert forall k :: 0 <= k < |s.pipes| ==> s'.pipes[k] == s.pipes[k];
    forall id, n | (id, n) in s.stored
      ensures StoredOk(s'.pipes, id, n, s.stored[(id, n)])
    {
      assert StoredOk(s.pipes, id, n, s.stored[(id, n)]);
    }
    forall id | id in s.objects
      ensures ObjectOk(s'.pipes, id, s.objects[id])
    {
      assert ObjectOk(s.pipes, id, s.objects[id]);
    }
  }

  lemma EnterKeepsInvariant(s: State, t: nat, pipe: nat, call: PartCall)
    requires Invariant(s) && pipe < |s.pipes| && !s.At(t).Inside?
    ensures Invariant(AfterEnter(s, t, pipe, call))
  {
    if s.pipes[pipe].holder == None {
      assert LockOk(s, pipe);
      LockedStepKeepsInvariant(s, t, pipe, s.pipes[pipe].(holder := Some(t)), Inside(pipe, call, Entered));
    }
  }

  lemma ProceedKeepsInvariant(s: State, t: nat, pipe: nat, call: PartCall, at: Section)
    requires Invariant(s) && s.At(t) == Inside(pipe, call, at)
    ensures pipe < |s.pipes| && Invariant(AfterProceed(s, t, pipe, call, at))
  {
    assert ThreadOk(s.pipes, t, s.At(t));
    var p := s.pipes[pipe];
    SectionStepKeeps(p.gcm, p.state, call, at);
    var (state, next) := SectionStep(p.state, call, at);
    LockedStepKeepsInvariant(s, t, pipe, p.(state := state), Inside(pipe, call, next));
  }

  lemma LeaveKeepsInvariant(s: State, t: nat, pipe: nat, call: PartCall, result: Result<Option<bytes>, PartError>)
    requires Invariant(s) && s.At(t) == Inside(pipe, call, Leaving(result))
    ensures pipe < |s.pipes| && Invariant(AfterLeave(s, t, pipe, call, result))
  {
    assert ThreadOk(s.pipes, t, s.At(t));
    var p' := s.pipes[pipe].(holder := None);
    var pc := if result.Ok? then Sending(pipe, call.number, result.value) else Idle;
    LockedStepKeepsInvariant(s, t, pipe, p', pc);
  }

  lemma SendKeepsInvariant(s: State, t: nat, pc: Thread, ok: bool)
    requires Invariant(s) && s.At(t) == pc && pc.Sending? && ThreadOk(s.pipes, t, pc)
    ensures Invariant(AfterSend(s, t, pc, ok))
  {
    var p := s.pipes[pc.pipe];
    if ok && pc.body.Some? && p.id in s.active {
      assert StoredOk(s.pipes, p.id, pc.number, pc.body.value);
      var s' := s.(stored := s.stored[(p.id, pc.number) := pc.body.value]);
      SameThreadsKeep(s, s');
      GotoKeepsInvariant(s', t, Idle);
    } else {
      GotoKeepsInvariant(s, t, Idle);
    }
  }

  /** Threads and locks do not depend on what S3 holds or the table lists. */
  lemma SameThreadsKeep(s: State, s': State)
    requires LocksOk(s) && ThreadsOk(s) && s'.pipes == s.pipes && s'.threads == s.threads
    ensures LocksOk(s') && ThreadsOk(s')
  {
    forall u
      ensures ThreadOk(s'.pipes, u, s'.At(u))
    {
      assert ThreadOk(s.pipes, u, s.At(u));
    }
    forall k | 0 <= k < |s.pipes|
      ensures LockOk(s', k)
    {
      assert LockOk(s, k);
    }
  }

  /** The unlocked read: another thread may be anywhere inside the section. */
  lemma CheckKeepsInvariant(s: State, t: nat, pipe: nat)
    requires Invariant(s) && s.At(t) == Checking(pipe)
    ensures pipe < |s.pipes| && (s.pipes[pipe].state.hasFinalPartBeenSeen ==> FlagSeen(s.pipes[pipe]))
    ensures Invariant(s.Goto(t, if s.pipes[pipe].state.hasFinalPartBeenSeen then Finishing(pipe) else Idle))
  {
    assert ThreadOk(s.pipes, t, s.At(t));
    if s.pipes[pipe].state.hasFinalPartBeenSeen {
      FlagIsSound(s, pipe);
    }
    GotoKeepsInvariant(s, t, if s.pipes[pipe].state.hasFinalPartBeenSeen then Finishing(pipe) else Idle);
  }

  /** At every moment a flag that is set is right, wherever the lock's holder stands. */
  lemma FlagIsSound(s: State, k: nat)
    requires Invariant(s) && k < |s.pipes| && s.pipes[k].state.hasFinalPartBeenSeen
    ensures FlagSeen(s.pipes[k])
  {
    var p := s.pipes[k];
    assert LockOk(s, k);
    match p.holder
    case None => FlagMeansTagged(p.gcm, p.state, PartCall(0, [], false), Entered);
    case Some(u) =>
      assert ThreadOk(s.pipes, u, s.At(u));
      FlagMeansTagged(p.gcm, p.state, s.At(u).call, s.At(u).at);
  }

  lemma FinishKeepsInvariant(s: State, t: nat, pipe: nat, numbers: seq<int>, ok: bool)
    requires Invariant(s) && s.At(t) == Finishing(pipe) && ThreadOk(s.pipes, t, Finishing(pipe))
    ensures Invariant(AfterFinish(s, t, pipe, numbers, ok))
  {
    var p := s.pipes[pipe];
    if ok && p.id in s.active && AllStored(s.stored, p.id, numbers) {
      var o := Object(numbers, Assemble(s.stored, p.id, numbers));
      AssembledIsMadeOf(s, pipe, numbers);
      assert ObjectOk(s.pipes, p.id, o);
      var s' := s.(active := s.active - {p.id}, objects := s.objects[p.id := o]);
      SameThreadsKeep(s, s');
      GotoKeepsInvariant(s', t, Removing(pipe));
    } else {
      GotoKeepsInvariant(s, t, Idle);
    }
  }

  lemma AssembledIsMadeOf(s: State, pipe: nat, numbers: seq<int>)
    requires S3Ok(s) && pipe < |s.pipes| && s.pipes[pipe].state.upload.final && s.pipes[pipe].state.upload.parts != []
    requires AllStored(s.stored, s.pipes[pipe].id, numbers)
    ensures MadeOf(s.pipes[pipe], Object(numbers, Assemble(s.stored, s.pipes[pipe].id, numbers)))
  {
    var p := s.pipes[pipe];
    forall i | 0 <= i < |numbers|
      ensures IsPart(p, numbers[i], s.stored[(p.id, numbers[i])])
    {
      assert StoredOk(s.pipes, p.id, numbers[i], s.stored[(p.id, numbers[i])]);
    }
    assert StoredPieces(s.stored, p.id, numbers) == Pieces(p, numbers);
  }

  lemma ForgetKeepsInvariant(s: State, id: UploadId)
    requires Invariant(s)
    ensures Invariant(s.(table := s.table - {id})) && Invariant(s.(active := s.active - {id}))
  {
    SameThreadsKeep(s, s.(table := s.table - {id}));
    SameThreadsKeep(s, s.(active := s.active - {id}));
  }

  lemma ApplyKeepsInvariant(s: State, t: nat, a: Action)
    requires Invariant(s)
    ensures Invariant(Apply(s, t, a))
  {
    var pc := s.At(t);
    assert ThreadOk(s.pipes, t, pc);
    match a
    case Create(id, gcm) => CreateKeepsInvariant(s, id, gcm);
    case StartPart(id, call) => if pc.Idle? && id in s.table { GotoKeepsInvariant(s, t, Waiting(s.table[id], call)); }
    case Enter => if pc.Waiting? { EnterKeepsInvariant(s, t, pc.pipe, pc.call); }
    case Proceed => if pc.Inside? { ProceedKeepsInvariant(s, t, pc.pipe, pc.call, pc.at); }
    case Leave => if pc.Inside? && pc.at.Leaving? { LeaveKeepsInvariant(s, t, pc.pipe, pc.call, pc.at.result); }
    case Send(ok) => if pc.Sending? { SendKeepsInvariant(s, t, pc, ok); }
    case StartComplete(id) => if pc.Idle? && id in s.table { GotoKeepsInvariant(s, t, Checking(s.table[id])); }
    case CheckFinal => if pc.Checking? { CheckKeepsInvariant(s, t, pc.pipe); }
    case Finish(numbers, ok) => if pc.Finishing? { FinishKeepsInvariant(s, t, pc.pipe, numbers, ok); }
    case Remove =>
      if pc.Removing? {
        ForgetKeepsInvariant(s, s.pipes[pc.pipe].id);
        GotoKeepsInvariant(s.(table := s.table - {s.pipes[pc.pipe].id}), t, Idle);
      }
    case StartAbort(id) =>
      if pc.Idle? {
        ForgetKeepsInvariant(s, id);
        GotoKeepsInvariant(s.(table := s.table - {id}), t, Aborting(id));
      }
    case AbortAtS3(ok) =>
      if pc.Aborting? {
        ForgetKeepsInvariant(s, pc.id);
        GotoKeepsInvariant(if ok then s.(active := s.active - {pc.id}) else s, t, Idle);
      }
  }

  /** The invariant holds after every interleaving. */
  lemma {:induction false} ExecutionsKeepInvariant(schedule: seq<(nat, Action)>)
    ensures Invariant(Execute(schedule))
  {
    if schedule != [] {
      var n := |schedule| - 1;
      ExecutionsKeepInvariant(schedule[..n]);
      ApplyKeepsInvariant(Execute(schedule[..n]), schedule[n].0, schedule[n].1);
    }
  }

  // ---- Main results ----

  /** After every interleaving, an object completed from all parts of its upload is one GCM
      encryption of the accepted plaintext in part order: it decrypts to exactly that. */
  lemma CompletedObjectDecrypts(schedule: seq<(nat, Action)>, k: nat)
    requires var s := Execute(schedule);
             && k < |s.pipes| && s.pipes[k].id in s.objects
             && s.objects[s.pipes[k].id].numbers == UpTo(|s.pipes[k].state.upload.parts|)
    ensures var s := Execute(schedule);
            var p := s.pipes[k];
            var plaintext := Concat(p.state.upload.parts);
            && s.objects[p.id].data == p.gcm.Seal(plaintext)
            && p.gcm.Open(s.objects[p.id].data) == Ok(plaintext)
  {
    ExecutionsKeepInvariant(schedule);
    var s := Execute(schedule);
    var p := s.pipes[k];
    var o := s.objects[p.id];
    assert ObjectOk(s.pipes, p.id, o) && MadeOf(p, o);
    AllPartsSealed(p, o);
  }

  lemma AllPartsSealed(p: Pipeline, o: Object)
    requires MadeOf(p, o) && o.numbers == UpTo(|p.state.upload.parts|)
    ensures o.data == p.gcm.Seal(Concat(p.state.upload.parts))
    ensures p.gcm.Open(o.data) == Ok(Concat(p.state.upload.parts))
  {
    var u := p.state.upload;
    assert Pieces(p, o.numbers) == Ciphertexts(p.gcm, u)[..|u.parts|];
    CiphertextsAreOneEncryption(p.gcm, u, |u.parts|);
    p.gcm.OpenExactlySealed(o.data, Concat(u.parts));
  }

  /** Part numbers as S3 wants them listed. */
  ghost predicate Ascending(numbers: seq<int>) {
    forall i, j :: 0 <= i < j < |numbers| ==> numbers[i] < numbers[j]
  }

  ghost predicate Within(numbers: seq<int>, n: nat) {
    forall i :: 0 <= i < |numbers| ==> 1 <= numbers[i] <= n
  }

  /** The pieces with these numbers, counted from 1, put together. */
  function Joined(pieces: seq<bytes>, numbers: seq<int>): bytes
    requires forall i :: 0 <= i < |numbers| ==> 1 <= numbers[i] <= |pieces|
  {
    if numbers == [] then []
    else Joined(pieces, numbers[..|numbers| - 1]) + pieces[numbers[|numbers| - 1] - 1]
  }

  /** Every one of the first n pieces that is not listed is empty. */
  ghost predicate OnlyEmptyLeftOut(pieces: seq<bytes>, numbers: seq<int>, n: nat)
    requires n <= |pieces|
  {
    forall k :: 1 <= k <= n && k !in numbers ==> pieces[k - 1] == []
  }

  lemma ListedLast(pieces: seq<bytes>, numbers: seq<int>, n: nat)
    requires Ascending(numbers) && Within(numbers, n) && 0 < n <= |pieces|
    requires numbers != [] && numbers[|numbers| - 1] == n
    ensures var init := numbers[..|numbers| - 1];
            && Ascending(init) && Within(init, n - 1)
            && (OnlyEmptyLeftOut(pieces, numbers, n) <==> OnlyEmptyLeftOut(pieces, init, n - 1))
  {
    var init := numbers[..|numbers| - 1];
    assert numbers == init + [n];
    forall i | 0 <= i < |init|
      ensures init[i] <= n - 1
    {
      assert numbers[i] < numbers[|numbers| - 1];
    }
    assert forall k :: 1 <= k <= n - 1 ==> (k in numbers <==> k in init);
    assert n in numbers;
  }

  lemma NotListedLast(pieces: seq<bytes>, numbers: seq<int>, n: nat)
    requires Ascending(numbers) && Within(numbers, n) && 0 < n <= |pieces|
    requires numbers == [] || numbers[|numbers| - 1] != n
    ensures Within(numbers, n - 1)
    ensures OnlyEmptyLeftOut(pieces, numbers, n) <==> OnlyEmptyLeftOut(pieces, numbers, n - 1) && pieces[n - 1] == []
  {
    forall i | 0 <= i < |numbers|
      ensures numbers[i] <= n - 1
    {
      assert i < |numbers| - 1 ==> numbers[i] < numbers[|numbers| - 1];
    }
    assert n !in numbers;
  }

  /** What was joined is the whole, or shorter when not enough was. */
  ghost predicate WholeWhen(enough: bool, joined: bytes, whole: bytes) {
    |joined| <= |whole| && (|joined| == |whole| <==> enough) && (enough ==> joined == whole)
  }

  lemma WholeWhenPushed(enough: bool, joined: bytes, whole: bytes, piece: bytes)
    requires WholeWhen(enough, joined, whole)
    ensures WholeWhen(enough, joined + piece, whole + piece)
    ensures WholeWhen(enough && piece == [], joined, whole + piece)
  {
    assert piece == [] ==> whole + piece == whole;
  }

  /** Listing some pieces in order gives the whole exactly when only empty ones are left out, and
      something shorter otherwise. */
  lemma {:induction false} JoinedIsWhole(pieces: seq<bytes>, numbers: seq<int>, n: nat)
    requires Ascending(numbers) && Within(numbers, n) && n <= |pieces|
    ensures WholeWhen(OnlyEmptyLeftOut(pieces, numbers, n), Joined(pieces, numbers), Concat(pieces[..n]))
    decreases n
  {
    if n > 0 {
      OffsetStep(pieces, n - 1);
      var whole, piece := Concat(pieces[..n - 1]), pieces[n - 1];
      if numbers != [] && numbers[|numbers| - 1] == n {
        var init := numbers[..|numbers| - 1];
        ListedLast(pieces, numbers, n);
        JoinedIsWhole(pieces, init, n - 1);
        WholeWhenPushed(OnlyEmptyLeftOut(pieces, init, n - 1), Joined(pieces, init), whole, piece);
      } else {
        NotListedLast(pieces, numbers, n);
        JoinedIsWhole(pieces, numbers, n - 1);
        WholeWhenPushed(OnlyEmptyLeftOut(pieces, numbers, n - 1), Joined(pieces, numbers), whole, piece);
      }
    } else {
      assert numbers == [];
    }
  }

  lemma {:induction false} PiecesJoined(p: Pipeline, numbers: seq<int>)
    requires Within(numbers, |p.state.upload.parts|)
    ensures Concat(Pieces(p, numbers)) == Joined(Ciphertexts(p.gcm, p.state.upload), numbers)
    decreases |numbers|
  {
    if numbers != [] {
      var m := |numbers| - 1;
      PiecesInit(p, numbers);
      ConcatPush([], Pieces(p, numbers[..m]), Ciphertexts(p.gcm, p.state.upload)[numbers[m] - 1]);
      PiecesJoined(p, numbers[..m]);
    }
  }

  lemma PiecesInit(p: Pipeline, numbers: seq<int>)
    requires Within(numbers, |p.state.upload.parts|) && numbers != []
    ensures var m := |numbers| - 1;
            Pieces(p, numbers) == Pieces(p, numbers[..m]) + [Ciphertexts(p.gcm, p.state.upload)[numbers[m] - 1]]
  {
  }

  /** Every part but the last that is not listed is empty, and the last is listed. */
  ghost predicate ListsEnough(u: Upload, numbers: seq<int>) {
    forall k :: 1 <= k <= |u.parts| && k !in numbers ==> k < |u.parts| && u.parts[k - 1] == []
  }

  /** The client does not check that a caller who completes an upload lists all parts. With the
      parts in ascending order, the object decrypts to the accepted plaintext exactly when nothing
      but empty parts before the last was left out. */
  lemma CompletedObjectDecryptsExactly(schedule: seq<(nat, Action)>, k: nat)
    requires k < |Execute(schedule).pipes| && Execute(schedule).pipes[k].id in Execute(schedule).objects
    requires Ascending(Execute(schedule).objects[Execute(schedule).pipes[k].id].numbers)
    ensures var p := Execute(schedule).pipes[k];
            var o := Execute(schedule).objects[p.id];
            p.gcm.Open(o.data) == Ok(Concat(p.state.upload.parts)) <==> ListsEnough(p.state.upload, o.numbers)
  {
    ExecutionsKeepInvariant(schedule);
    var s := Execute(schedule);
    var p := s.pipes[k];
    var o := s.objects[p.id];
    assert ObjectOk(s.pipes, p.id, o) && MadeOf(p, o);
    ListingDecryptsExactly(p, o);
  }

  lemma ListingDecryptsExactly(p: Pipeline, o: Object)
    requires MadeOf(p, o) && Ascending(o.numbers)
    ensures p.gcm.Open(o.data) == Ok(Concat(p.state.upload.parts)) <==> ListsEnough(p.state.upload, o.numbers)
  {
    var u := p.state.upload;
    var n, pieces := |u.parts|, Ciphertexts(p.gcm, u);
    PiecesJoined(p, o.numbers);
    JoinedIsWhole(pieces, o.numbers, n);
    CiphertextsAreOneEncryption(p.gcm, u, n);
    p.gcm.OpenExactlySealed(o.data, Concat(u.parts));
    EmptyPieces(p, o.numbers);
  }

  lemma EmptyPieces(p: Pipeline, numbers: seq<int>)
    requires p.state.upload.final
    ensures var u := p.state.upload;
            OnlyEmptyLeftOut(Ciphertexts(p.gcm, u), numbers, |u.parts|) <==> ListsEnough(u, numbers)
  {
    var u := p.state.upload;
    forall j | 0 <= j < |u.parts|
      ensures Ciphertexts(p.gcm, u)[j] == [] <==> j + 1 < |u.parts| && u.parts[j] == []
    {
      assert |Ciphertext(p.gcm, u, j)| == |u.parts[j]| + |TagAfter(p.gcm, u, j + 1)|;
    }
  }

  /** Only the statements of a section write a pipeline's fields. */
  lemma OtherStepsKeepState(s: State, t: nat, a: Action, k: nat)
    requires k < |s.pipes| && !a.Proceed?
    ensures k < |Apply(s, t, a).pipes| && Apply(s, t, a).pipes[k].state == s.pipes[k].state
  {
  }

  lemma ProceedExtends(s: State, t: nat, k: nat)
    requires k < |s.pipes| && ThreadOk(s.pipes, t, s.At(t))
    ensures k < |Apply(s, t, Proceed).pipes| && Extends(s.pipes[k].gcm, s.pipes[k].state, Apply(s, t, Proceed).pipes[k].state)
  {
    var pc := s.At(t);
    if pc.Inside? && pc.pipe == k {
      SectionStepKeeps(s.pipes[k].gcm, s.pipes[k].state, pc.call, pc.at);
    }
  }

  /** Once the flag is set, no step changes the upload or its cipher, or clears the flag. */
  lemma FlaggedUploadStays(s: State, t: nat, a: Action, k: nat)
    requires Invariant(s) && k < |s.pipes| && FlagSeen(s.pipes[k])
    ensures k < |Apply(s, t, a).pipes|
    ensures var p, p' := s.pipes[k].state, Apply(s, t, a).pipes[k].state;
            p'.hasFinalPartBeenSeen && p'.upload == p.upload && p'.encryptor == p.encryptor
  {
    if a.Proceed? {
      assert ThreadOk(s.pipes, t, s.At(t));
      ProceedExtends(s, t, k);
    } else {
      OtherStepsKeepState(s, t, a, k);
    }
  }

  /** The unlocked read of the final flag is sound, wherever inside a locked section it falls:
      whoever saw it set finds it set at every later moment, with the tag computed over the whole
      plaintext, and neither the upload nor its cipher has changed since. */
  lemma {:induction false} FinalUploadIsFrozen(schedule: seq<(nat, Action)>, later: seq<(nat, Action)>, k: nat)
    requires k < |Execute(schedule).pipes| && Execute(schedule).pipes[k].state.hasFinalPartBeenSeen
    ensures k < |Execute(schedule + later).pipes|
    ensures var p, p' := Execute(schedule).pipes[k], Execute(schedule + later).pipes[k];
            FlagSeen(p') && p'.state.upload == p.state.upload && p'.state.encryptor == p.state.encryptor
    decreases |later|
  {
    if later == [] {
      assert schedule + later == schedule;
      ExecutionsKeepInvariant(schedule);
      FlagIsSound(Execute(schedule), k);
    } else {
      var (t, a) := later[|later| - 1];
      var prefix := later[..|later| - 1];
      FinalUploadIsFrozen(schedule, prefix, k);
      ExecuteStep(schedule, later);
      ExecutionsKeepInvariant(schedule + prefix);
      FlaggedUploadStays(Execute(schedule + prefix), t, a, k);
      ExecutionsKeepInvariant(schedule + later);
      FlagIsSound(Execute(schedule + later), k);
    }
  }

  /** Whenever a thread is past the check in complete, the final part has been encrypted and the
      tag covers all parts. */
  lemma CompletionFollowsFinalPart(schedule: seq<(nat, Action)>, t: nat)
    requires Execute(schedule).At(t).Finishing? || Execute(schedule).At(t).Removing?
    ensures var s := Execute(schedule);
            s.At(t).pipe < |s.pipes| && FlagSeen(s.pipes[s.At(t).pipe])
  {
    ExecutionsKeepInvariant(schedule);
    assert ThreadOk(Execute(schedule).pipes, t, Execute(schedule).At(t));
  }

  /** Two threads are never inside the same pipeline's section. */
  lemma SectionsExclude(schedule: seq<(nat, Action)>, t: nat, u: nat)
    requires Execute(schedule).At(t).Inside? && Execute(schedule).At(u).Inside?
    requires Execute(schedule).At(t).pipe == Execute(schedule).At(u).pipe
    ensures t == u
  {
    ExecutionsKeepInvariant(schedule);
    assert ThreadOk(Execute(schedule).pipes, t, Execute(schedule).At(t));
    assert ThreadOk(Execute(schedule).pipes, u, Execute(schedule).At(u));
  }

  /** After every interleaving, also in the middle of sections, a pipeline's cipher enciphered the
      accepted plaintext, each byte once and in part order, and at most the last part's data after
      it, whose tag its holder has yet to compute: nothing of a retry, of a refused part or of a
      thread outside the lock. */
  lemma KeystreamsNotReused(schedule: seq<(nat, Action)>, k: nat)
    requires k < |Execute(schedule).pipes|
    ensures var s := Execute(schedule);
            var p := s.pipes[k];
            var plaintext := Concat(p.state.upload.parts);
            || p.state.encryptor.Enciphered(plaintext)
            || (&& p.holder.Some? && s.At(p.holder.value).Inside? && s.At(p.holder.value).pipe == k
                && s.At(p.holder.value).at.Ciphered? && s.At(p.holder.value).call.isLast
                && p.state.encryptor.Enciphered(plaintext + s.At(p.holder.value).call.data))
  {
    ExecutionsKeepInvariant(schedule);
    var s := Execute(schedule);
    assert LockOk(s, k);
    match s.pipes[k].holder
    case None =>
    case Some(u) => assert ThreadOk(s.pipes, u, s.At(u));
  }

  /** The upload a step may change, when there is one. */
  function Target(s: State, t: nat, a: Action): Option<UploadId> {
    var pc := s.At(t);
    match a
    case Create(id, _) => Some(id)
    case StartAbort(id) => Some(id)
    case AbortAtS3(_) => if pc.Aborting? then Some(pc.id) else None
    case Enter => if pc.Waiting? then IdOf(s, pc.pipe) else None
    case Proceed => if pc.Inside? then IdOf(s, pc.pipe) else None
    case Leave => if pc.Inside? then IdOf(s, pc.pipe) else None
    case Send(_) => if pc.Sending? then IdOf(s, pc.pipe) else None
    case Finish(_, _) => if pc.Finishing? then IdOf(s, pc.pipe) else None
    case Remove => if pc.Removing? then IdOf(s, pc.pipe) else None
    case _ => None
  }

  function IdOf(s: State, pipe: nat): Option<UploadId> {
    if pipe < |s.pipes| then Some(s.pipes[pipe].id) else None
  }

  /** What the client and S3 hold about one upload is the same in both states: its pipeline
      (when it is the one at `k`), its table entry, its part `n` and its object. */
  ghost predicate SameFor(s: State, s': State, id: UploadId, k: nat, n: int) {
    && (k < |s.pipes| && s.pipes[k].id == id ==> k < |s'.pipes| && s'.pipes[k] == s.pipes[k])
    && (k < |s'.pipes| && s'.pipes[k].id == id ==> k < |s.pipes| && s'.pipes[k] == s.pipes[k])
    && (id in s'.table <==> id in s.table) && (id in s.table ==> s'.table[id] == s.table[id])
    && (id in s'.active <==> id in s.active)
    && ((id, n) in s'.stored <==> (id, n) in s.stored)
    && ((id, n) in s.stored ==> s'.stored[(id, n)] == s.stored[(id, n)])
    && (id in s'.objects <==> id in s.objects) && (id in s.objects ==> s'.objects[id] == s.objects[id])
  }

  lemma CreateIsIndependent(s: State, newId: UploadId, gcm: Gcm, id: UploadId, k: nat, n: int)
    requires newId != id
    ensures SameFor(s, AfterCreate(s, newId, gcm), id, k, n)
  {
  }

  lemma LockedStepIsIndependent(s: State, t: nat, pipe: nat, p': Pipeline, pc: Thread, id: UploadId, k: nat, n: int)
    requires pipe < |s.pipes| && s.pipes[pipe].id != id && p'.id == s.pipes[pipe].id
    ensures SameFor(s, s.SetPipe(pipe, p').Goto(t, pc), id, k, n)
  {
  }

  lemma SectionIsIndependent(s: State, t: nat, pipe: nat, pc: Thread, id: UploadId, k: nat, n: int)
    requires pipe < |s.pipes| && s.pipes[pipe].id != id
    ensures pc.Waiting? ==> SameFor(s, AfterEnter(s, t, pipe, pc.call), id, k, n)
    ensures pc.Inside? && !pc.at.Leaving? ==> SameFor(s, AfterProceed(s, t, pipe, pc.call, pc.at), id, k, n)
    ensures pc.Inside? && pc.at.Leaving? ==> SameFor(s, AfterLeave(s, t, pipe, pc.call, pc.at.result), id, k, n)
  {
    var p := s.pipes[pipe];
    match pc
    case Waiting(_, call) => LockedStepIsIndependent(s, t, pipe, p.(holder := Some(t)), Inside(pipe, call, Entered), id, k, n);
    case Inside(_, call, at) =>
      if at.Leaving? {
        var next := if at.result.Ok? then Sending(pipe, call.number, at.result.value) else Idle;
        LockedStepIsIndependent(s, t, pipe, p.(holder := None), next, id, k, n);
      } else {
        var (state, next) := SectionStep(p.state, call, at);
        LockedStepIsIndependent(s, t, pipe, p.(state := state), Inside(pipe, call, next), id, k, n);
      }
    case _ =>
  }

  lemma SendIsIndependent(s: State, t: nat, pc: Thread, ok: bool, id: UploadId, k: nat, n: int)
    requires pc.Sending? && pc.pipe < |s.pipes| && s.pipes[pc.pipe].id != id
    ensures SameFor(s, AfterSend(s, t, pc, ok), id, k, n)
  {
  }

  lemma FinishIsIndependent(s: State, t: nat, pipe: nat, numbers: seq<int>, ok: bool, id: UploadId, k: nat, n: int)
    requires pipe < |s.pipes| && s.pipes[pipe].id != id
    ensures SameFor(s, AfterFinish(s, t, pipe, numbers, ok), id, k, n)
  {
  }

  lemma GotoIsIndependent(s: State, t: nat, pc: Thread, id: UploadId, k: nat, n: int)
    ensures SameFor(s, s.Goto(t, pc), id, k, n)
  {
  }

  lemma RemoveIsIndependent(s: State, t: nat, pc: Thread, other: UploadId, id: UploadId, k: nat, n: int)
    requires other != id
    ensures SameFor(s, s.(table := s.table - {other}).Goto(t, pc), id, k, n)
    ensures SameFor(s, s.(active := s.active - {other}).Goto(t, pc), id, k, n)
  {
  }

  lemma StepIsIndependent(s: State, t: nat, a: Action, id: UploadId, k: nat, n: int)
    requires Target(s, t, a) != Some(id)
    ensures SameFor(s, Apply(s, t, a), id, k, n)
  {
    var pc := s.At(t);
    match a
    case Create(newId, gcm) => CreateIsIndependent(s, newId, gcm, id, k, n);
    case StartPart(other, call) =>
      if other in s.table { GotoIsIndependent(s, t, Waiting(s.table[other], call), id, k, n); }
    case Enter => if pc.Waiting? && pc.pipe < |s.pipes| { SectionIsIndependent(s, t, pc.pipe, pc, id, k, n); }
    case Proceed => if pc.Inside? && pc.pipe < |s.pipes| { SectionIsIndependent(s, t, pc.pipe, pc, id, k, n); }
    case Leave => if pc.Inside? && pc.pipe < |s.pipes| { SectionIsIndependent(s, t, pc.pipe, pc, id, k, n); }
    case Send(ok) =>
      if pc.Sending? && pc.pipe < |s.pipes| { SendIsIndependent(s, t, pc, ok, id, k, n); }
    case StartComplete(other) =>
      if other in s.table { GotoIsIndependent(s, t, Checking(s.table[other]), id, k, n); }
    case CheckFinal =>
      if pc.Checking? {
        GotoIsIndependent(s, t, Finishing(pc.pipe), id, k, n);
        GotoIsIndependent(s, t, Idle, id, k, n);
      }
    case Finish(numbers, ok) =>
      if pc.Finishing? && pc.pipe < |s.pipes| { FinishIsIndependent(s, t, pc.pipe, numbers, ok, id, k, n); }
    case Remove =>
      if pc.Removing? && pc.pipe < |s.pipes| { RemoveIsIndependent(s, t, Idle, s.pipes[pc.pipe].id, id, k, n); }
    case StartAbort(other) => RemoveIsIndependent(s, t, Aborting(other), other, id, k, n);
    case AbortAtS3(ok) =>
      if pc.Aborting? {
        GotoIsIndependent(s, t, Idle, id, k, n);
        RemoveIsIndependent(s, t, Idle, pc.id, id, k, n);
      }
  }

  lemma SameForLater(s: State, s': State, s'': State, id: UploadId, k: nat, n: int)
    requires SameFor(s, s', id, k, n) && SameFor(s', s'', id, k, n)
    ensures SameFor(s, s'', id, k, n)
  {
  }

  /** No step of `later`, taken after `schedule`, is about upload `id`. */
  ghost predicate LeavesAlone(schedule: seq<(nat, Action)>, later: seq<(nat, Action)>, id: UploadId) {
    later != [] ==>
      var (t, a) := later[|later| - 1];
      var before := later[..|later| - 1];
      LeavesAlone(schedule, before, id) && Target(Execute(schedule + before), t, a) != Some(id)
  }

  /** Uploads do not affect each other: any number of steps about other uploads, by any threads,
      leaves an upload's pipeline, table entry, stored parts and object as they were. */
  lemma {:induction false} UploadsAreIndependent(schedule: seq<(nat, Action)>, later: seq<(nat, Action)>,
                                                 id: UploadId, k: nat, n: int)
    requires LeavesAlone(schedule, later, id)
    ensures SameFor(Execute(schedule), Execute(schedule + later), id, k, n)
    decreases |later|
  {
    if later == [] {
      assert schedule + later == schedule;
    } else {
      var (t, a) := later[|later| - 1];
      var prefix := later[..|later| - 1];
      UploadsAreIndependent(schedule, prefix, id, k, n);
      ExecuteStep(schedule, later);
      StepIsIndependent(Execute(schedule + prefix), t, a, id, k, n);
      SameForLater(Execute(schedule), Execute(schedule + prefix), Execute(schedule + later), id, k, n);
    }
  }

  lemma ExecuteStep(schedule: seq<(nat, Action)>, later: seq<(nat, Action)>)
    requires later != []
    ensures var (t, a) := later[|later| - 1];
            Execute(schedule + later) == Apply(Execute(schedule + later[..|later| - 1]), t, a)
  {
    LastOfConcat(schedule, later);
  }

  lemma LastOfConcat<T>(a: seq<T>, b: seq<T>)
    requires b != []
    ensures a + b != [] && (a + b)[|a + b| - 1] == b[|b| - 1]
    ensures (a + b)[..|a + b| - 1] == a + b[..|b| - 1]
  {
  }

  // ---- Parts really can be left out ----

  lemma Then(schedule: seq<(nat, Action)>, t: nat, a: Action) returns (next: seq<(nat, Action)>)
    ensures Execute(next) == Apply(Execute(schedule), t, a)
  {
    next := schedule + [(t, a)];
    assert next[..|next| - 1] == schedule;
  }

  /** The state after thread `t` has been through the rest of its section undisturbed. */
  function AfterSection(s: State, t: nat): State
    requires s.At(t).Inside? && s.At(t).pipe < |s.pipes|
  {
    var pc := s.At(t);
    var (state, result) := RunSection(s.pipes[pc.pipe].state, pc.call, pc.at);
    s.SetPipe(pc.pipe, s.pipes[pc.pipe].(state := state)).Goto(t, Inside(pc.pipe, pc.call, Leaving(result)))
  }

  lemma AfterSectionStep(s: State, t: nat)
    requires s.At(t).Inside? && s.At(t).pipe < |s.pipes|
    ensures s.At(t).at.Leaving? ==> AfterSection(s, t) == s
    ensures var s' := Apply(s, t, Proceed);
            !s.At(t).at.Leaving? ==>
              && s'.At(t).Inside? && s'.At(t).pipe == s.At(t).pipe && |s'.pipes| == |s.pipes|
              && s'.At(t).at.Rank() < s.At(t).at.Rank()
              && AfterSection(s', t) == AfterSection(s, t)
  {
    var pc := s.At(t);
    if pc.at.Leaving? {
      assert s.threads[t := pc] == s.threads && s.pipes[pc.pipe := s.pipes[pc.pipe]] == s.pipes;
    } else {
      var (state, next) := SectionStep(s.pipes[pc.pipe].state, pc.call, pc.at);
      var s', end := Apply(s, t, Proceed), AfterSection(s, t);
      assert s'.At(t) == Inside(pc.pipe, pc.call, next) && s'.pipes[pc.pipe].state == state;
      assert AfterSection(s', t).pipes == end.pipes && AfterSection(s', t).threads == end.threads;
    }
  }

  lemma {:induction false} RunToLeaving(schedule: seq<(nat, Action)>, t: nat) returns (next: seq<(nat, Action)>)
    requires Execute(schedule).At(t).Inside? && Execute(schedule).At(t).pipe < |Execute(schedule).pipes|
    ensures Execute(next) == AfterSection(Execute(schedule), t)
    decreases Execute(schedule).At(t).at.Rank()
  {
    next := schedule;
    AfterSectionStep(Execute(schedule), t);
    if !Execute(schedule).At(t).at.Leaving? {
      var step := Then(schedule, t, Proceed);
      next := RunToLeaving(step, t);
    }
  }

  lemma EnterPart(schedule: seq<(nat, Action)>, t: nat, k: nat, call: PartCall) returns (next: seq<(nat, Action)>)
    requires var s := Execute(schedule);
             && k < |s.pipes| && s.At(t).Idle? && s.pipes[k].holder == None
             && s.pipes[k].id in s.table && s.table[s.pipes[k].id] == k
    ensures var s := Execute(schedule);
            Execute(next) == s.SetPipe(k, s.pipes[k].(holder := Some(t))).Goto(t, Inside(k, call, Entered))
  {
    var s := Execute(schedule);
    next := Then(schedule, t, StartPart(s.pipes[k].id, call));
    assert Execute(next) == s.Goto(t, Waiting(k, call));
    next := Then(next, t, Enter);
    assert s.threads[t := Waiting(k, call)][t := Inside(k, call, Entered)] == s.threads[t := Inside(k, call, Entered)];
  }

  lemma LeavePart(schedule: seq<(nat, Action)>, t: nat, k: nat, call: PartCall, body: bytes) returns (next: seq<(nat, Action)>)
    requires var s := Execute(schedule);
             k < |s.pipes| && s.At(t) == Inside(k, call, Leaving(Ok(Some(body)))) && s.pipes[k].id in s.active
    ensures var s := Execute(schedule);
            Execute(next) == s.SetPipe(k, s.pipes[k].(holder := None)).(stored := s.stored[(s.pipes[k].id, call.number) := body])
                              .Goto(t, Idle)
  {
    var s := Execute(schedule);
    next := Then(schedule, t, Leave);
    assert Execute(next) == s.SetPipe(k, s.pipes[k].(holder := None)).Goto(t, Sending(k, call.number, Some(body)));
    next := Then(next, t, Send(true));
    assert s.threads[t := Sending(k, call.number, Some(body))][t := Idle] == s.threads[t := Idle];
  }

  /** An idle thread can always get an acceptable part to S3. */
  lemma SendPart(schedule: seq<(nat, Action)>, t: nat, k: nat, call: PartCall, body: bytes) returns (next: seq<(nat, Action)>)
    requires var s := Execute(schedule);
             && k < |s.pipes| && s.At(t).Idle? && s.pipes[k].holder == None
             && s.pipes[k].id in s.table && s.table[s.pipes[k].id] == k && s.pipes[k].id in s.active
             && RunSection(s.pipes[k].state, call, Entered).1 == Ok(Some(body))
    ensures var s, s' := Execute(schedule), Execute(next);
            && s'.pipes == s.pipes[k := s.pipes[k].(state := RunSection(s.pipes[k].state, call, Entered).0)]
            && s'.stored == s.stored[(s.pipes[k].id, call.number) := body]
            && s'.At(t).Idle? && s'.table == s.table && s'.active == s.active && s'.objects == s.objects
  {
    next := EnterPart(schedule, t, k, call);
    next := RunToLeaving(next, t);
    next := LeavePart(next, t, k, call, body);
  }

  lemma SeesFinal(schedule: seq<(nat, Action)>, t: nat, k: nat) returns (next: seq<(nat, Action)>)
    requires var s := Execute(schedule);
             && k < |s.pipes| && s.At(t).Idle? && s.pipes[k].state.hasFinalPartBeenSeen
             && s.pipes[k].id in s.table && s.table[s.pipes[k].id] == k
    ensures Execute(next) == Execute(schedule).Goto(t, Finishing(k))
  {
    var s := Execute(schedule);
    next := Then(schedule, t, StartComplete(s.pipes[k].id));
    assert Execute(next) == s.Goto(t, Checking(k));
    next := Then(next, t, CheckFinal);
    assert s.threads[t := Checking(k)][t := Finishing(k)] == s.threads[t := Finishing(k)];
  }

  /** And can complete a final upload with any parts that S3 holds. */
  lemma CompleteWith(schedule: seq<(nat, Action)>, t: nat, k: nat, numbers: seq<int>) returns (next: seq<(nat, Action)>)
    requires var s := Execute(schedule);
             && k < |s.pipes| && s.At(t).Idle? && s.pipes[k].state.hasFinalPartBeenSeen
             && s.pipes[k].id in s.table && s.table[s.pipes[k].id] == k && s.pipes[k].id in s.active
             && AllStored(s.stored, s.pipes[k].id, numbers)
    ensures var s, s' := Execute(schedule), Execute(next);
            && s'.pipes == s.pipes && s.pipes[k].id in s'.objects && s'.objects[s.pipes[k].id].numbers == numbers
  {
    next := SeesFinal(schedule, t, k);
    next := Then(next, t, Finish(numbers, true));
  }

  /** An upload whose first part was sent but not listed completes, and its object does not decrypt
      to what was uploaded. */
  lemma PartsCanBeLeftOut(id: UploadId, gcm: Gcm, first: Chunk, last: bytes) returns (schedule: seq<(nat, Action)>)
    ensures var s := Execute(schedule);
            && |s.pipes| == 1 && s.pipes[0].id == id && s.pipes[0].gcm == gcm
            && s.pipes[0].state.upload == Upload([first, last], true)
            && id in s.objects && s.objects[id].numbers == [2]
            && gcm.Open(s.objects[id].data) != Ok(first + last)
  {
    var none: seq<(nat, Action)> := [];
    schedule := Then(none, 0, Create(id, gcm));
    var c1, c2 := PartCall(1, first, false), PartCall(2, last, true);
    var p0 := NewPipeline(gcm);
    NewIsSettled(gcm);
    SectionIsSubmit(gcm, p0, c1);
    var (p1, r1) := RunSection(p0, c1, Entered);
    SectionIsSubmit(gcm, p1, c2);
    var (p2, r2) := RunSection(p1, c2, Entered);
    assert Execute(schedule).pipes == [Pipeline(id, gcm, None, p0)];
    schedule := SendPart(schedule, 0, 0, c1, r1.value.value);
    assert Execute(schedule).pipes == [Pipeline(id, gcm, None, p1)];
    schedule := SendPart(schedule, 0, 0, c2, r2.value.value);
    assert Execute(schedule).pipes == [Pipeline(id, gcm, None, p2)];
    schedule := CompleteWith(schedule, 0, 0, [2]);
    CompletedObjectDecryptsExactly(schedule, 0);
    TwoParts(first, last);
    assert 1 !in [2];
  }

  lemma TwoParts(first: bytes, last: bytes)
    ensures Concat([first, last]) == first + last
  {
    assert [first, last][..1] == [first] && [first][..0] == [];
    assert Concat([first]) == Concat([]) + first == first;
  }
}
