/** When uploads end: what was completed or aborted stays as it is, whatever other threads do. */
module UploadLifetimes {
  import opened AesGcm
  import opened ConcurrentUploads

  type Schedule = seq<(nat, Action)>

  lemma ExecuteNext(schedule: Schedule, step: (nat, Action))
    ensures Execute(schedule + [step]) == Apply(Execute(schedule), step.0, step.1)
  {
    assert (schedule + [step])[..|schedule|] == schedule;
  }

  /** The client has forgotten the upload. */
  ghost predicate Forgotten(s: State, id: UploadId) {
    id in s.issued && id !in s.table
  }

  /** S3 no longer has the upload open. */
  ghost predicate Closed(s: State, id: UploadId) {
    id in s.issued && id !in s.active
  }

  /** Parts and object of an upload are the same. */
  ghost predicate SameAtS3(s: State, s': State, id: UploadId) {
    && (forall n :: (id, n) in s.stored <==> (id, n) in s'.stored)
    && (forall n :: (id, n) in s.stored ==> s.stored[(id, n)] == s'.stored[(id, n)])
    && (id in s.objects <==> id in s'.objects) && (id in s.objects ==> s.objects[id] == s'.objects[id])
  }

  lemma StepKeepsForgotten(s: State, t: nat, a: Action, id: UploadId)
    requires Forgotten(s, id)
    ensures Forgotten(Apply(s, t, a), id)
  {
  }

  lemma StepKeepsClosed(s: State, t: nat, a: Action, id: UploadId)
    requires Closed(s, id)
    ensures Closed(Apply(s, t, a), id) && SameAtS3(s, Apply(s, t, a), id)
  {
  }

  /** An upload that is forgotten stays forgotten, and one that S3 has closed stays closed and as it
      is: no thread can add, replace, complete or remove anything under its id. */
  lemma {:induction false} EndedForEver(schedule: Schedule, more: Schedule, id: UploadId)
    ensures Forgotten(Execute(schedule), id) ==> Forgotten(Execute(schedule + more), id)
    ensures Closed(Execute(schedule), id) ==>
              Closed(Execute(schedule + more), id) && SameAtS3(Execute(schedule), Execute(schedule + more), id)
    decreases |more|
  {
    if more == [] {
      assert schedule + more == schedule;
    } else {
      var n := |more| - 1;
      EndedForEver(schedule, more[..n], id);
      assert schedule + more == (schedule + more[..n]) + [more[n]];
      ExecuteNext(schedule + more[..n], more[n]);
      if Forgotten(Execute(schedule), id) {
        StepKeepsForgotten(Execute(schedule + more[..n]), more[n].0, more[n].1, id);
      }
      if Closed(Execute(schedule), id) {
        StepKeepsClosed(Execute(schedule + more[..n]), more[n].0, more[n].1, id);
      }
    }
  }

  ghost predicate ObjectsClosed(s: State) {
    forall id :: id in s.objects ==> Closed(s, id)
  }

  lemma StepKeepsObjectsClosed(s: State, t: nat, a: Action)
    requires PipesOk(s) && ObjectsClosed(s)
    ensures ObjectsClosed(Apply(s, t, a))
  {
  }

  lemma {:induction false} CompletedIsClosed(schedule: Schedule)
    ensures ObjectsClosed(Execute(schedule))
  {
    if schedule != [] {
      var n := |schedule| - 1;
      CompletedIsClosed(schedule[..n]);
      ExecutionsKeepInvariant(schedule[..n]);
      StepKeepsObjectsClosed(Execute(schedule[..n]), schedule[n].0, schedule[n].1);
    }
  }

  /** An upload is completed at most once: the object it became never changes. */
  lemma CompletedForEver(schedule: Schedule, more: Schedule, id: UploadId)
    requires id in Execute(schedule).objects
    ensures id in Execute(schedule + more).objects
    ensures Execute(schedule + more).objects[id] == Execute(schedule).objects[id]
  {
    CompletedIsClosed(schedule);
    EndedForEver(schedule, more, id);
  }

  /** A step leaves other threads where they stand, and pipelines under their ids. */
  lemma StepLeavesThread(s: State, u: nat, a: Action, t: nat)
    requires u != t
    ensures Apply(s, u, a).At(t) == s.At(t)
  {
  }

  lemma StepLeavesIds(s: State, u: nat, a: Action, k: nat)
    requires k < |s.pipes|
    ensures k < |Apply(s, u, a).pipes| && Apply(s, u, a).pipes[k].id == s.pipes[k].id
  {
  }

  /** After steps of other threads a thread stands where it stood, with the same pipelines. */
  ghost predicate Stands(s: State, s': State, t: nat) {
    && s'.At(t) == s.At(t)
    && |s.pipes| <= |s'.pipes| && (forall k :: 0 <= k < |s.pipes| ==> s'.pipes[k].id == s.pipes[k].id)
  }

  lemma {:induction false} OthersLeaveThread(schedule: Schedule, others: Schedule, t: nat)
    requires forall i :: 0 <= i < |others| ==> others[i].0 != t
    ensures Stands(Execute(schedule), Execute(schedule + others), t)
    decreases |others|
  {
    if others == [] {
      assert schedule + others == schedule;
    } else {
      var n := |others| - 1;
      OthersLeaveThread(schedule, others[..n], t);
      assert schedule + others == (schedule + others[..n]) + [others[n]];
      ExecuteNext(schedule + others[..n], others[n]);
      StandsNext(Execute(schedule), Execute(schedule + others[..n]), others[n].0, others[n].1, t);
    }
  }

  lemma StandsNext(s: State, s': State, u: nat, a: Action, t: nat)
    requires Stands(s, s', t) && u != t
    ensures Stands(s, Apply(s', u, a), t)
  {
    StepLeavesThread(s', u, a, t);
    forall k | 0 <= k < |s'.pipes|
      ensures k < |Apply(s', u, a).pipes| && Apply(s', u, a).pipes[k].id == s'.pipes[k].id
    {
      StepLeavesIds(s', u, a, k);
    }
    if |s.pipes| > 0 {
      StepLeavesIds(s', u, a, |s.pipes| - 1);
    }
  }

  lemma AbortForgets(s: State, t: nat, id: UploadId)
    requires s.At(t).Idle? && id in s.issued
    ensures var s' := Apply(s, t, StartAbort(id)); Forgotten(s', id) && s'.At(t) == Aborting(id)
  {
  }

  lemma AbortCloses(s: State, t: nat, id: UploadId)
    requires s.At(t) == Aborting(id) && Forgotten(s, id)
    ensures var s' := Apply(s, t, AbortAtS3(true)); Forgotten(s', id) && Closed(s', id)
  {
  }

  /** An abort is final: from its first statement the client has forgotten the upload for ever, and
      once S3 has agreed nothing is stored, completed or removed under its id any more. */
  lemma AbortIsFinal(schedule: Schedule, t: nat, id: UploadId, between: Schedule, more: Schedule)
    requires Execute(schedule).At(t).Idle? && id in Execute(schedule).issued
    requires forall i :: 0 <= i < |between| ==> between[i].0 != t
    ensures var started := schedule + [(t, StartAbort(id))];
            var aborted := started + between + [(t, AbortAtS3(true))];
            && Forgotten(Execute(started + between), id)
            && Forgotten(Execute(aborted + more), id) && Closed(Execute(aborted + more), id)
            && SameAtS3(Execute(aborted), Execute(aborted + more), id)
  {
    var started := schedule + [(t, StartAbort(id))];
    ExecuteNext(schedule, (t, StartAbort(id)));
    AbortForgets(Execute(schedule), t, id);
    OthersLeaveThread(started, between, t);
    EndedForEver(started, between, id);
    ExecuteNext(started + between, (t, AbortAtS3(true)));
    AbortCloses(Execute(started + between), t, id);
    EndedForEver(started + between + [(t, AbortAtS3(true))], more, id);
  }

  /** S3 assembles an object: the upload is closed, and the thread has only the table left to clear. */
  lemma FinishCloses(s: State, t: nat, k: nat, numbers: seq<int>)
    requires PipesOk(s) && s.At(t) == Finishing(k) && k < |s.pipes|
    requires s.pipes[k].id in s.active && AllStored(s.stored, s.pipes[k].id, numbers)
    ensures var s', id := Apply(s, t, Finish(numbers, true)), s.pipes[k].id;
            && Closed(s', id) && id in s'.objects && s'.objects[id] == Object(numbers, Assemble(s.stored, id, numbers))
            && s'.At(t) == Removing(k) && s'.pipes == s.pipes
  {
  }

  lemma RemoveForgets(s: State, t: nat, k: nat)
    requires s.At(t) == Removing(k) && k < |s.pipes| && s.pipes[k].id in s.issued
    ensures Forgotten(Apply(s, t, Remove), s.pipes[k].id)
  {
  }

  /** A completion is final: once S3 has assembled the object it is there for ever, and once the
      completing thread is through the client has forgotten the upload for ever. */
  lemma CompletionIsFinal(schedule: Schedule, t: nat, k: nat, numbers: seq<int>, between: Schedule, more: Schedule)
    requires Execute(schedule).At(t) == Finishing(k) && k < |Execute(schedule).pipes|
    requires forall i :: 0 <= i < |between| ==> between[i].0 != t
    requires var s := Execute(schedule); s.pipes[k].id in s.active && AllStored(s.stored, s.pipes[k].id, numbers)
    ensures var s, finished := Execute(schedule), schedule + [(t, Finish(numbers, true))];
            var id, through := s.pipes[k].id, finished + between + [(t, Remove)];
            var o := Object(numbers, Assemble(s.stored, id, numbers));
            && Closed(Execute(finished + between), id) && id in Execute(finished + between).objects
            && Execute(finished + between).objects[id] == o
            && Forgotten(Execute(through + more), id) && Closed(Execute(through + more), id)
  {
    var s, finished := Execute(schedule), schedule + [(t, Finish(numbers, true))];
    var id, through := s.pipes[k].id, finished + between + [(t, Remove)];
    ExecutionsKeepInvariant(schedule);
    ExecuteNext(schedule, (t, Finish(numbers, true)));
    FinishCloses(s, t, k, numbers);
    EndedForEver(finished, between, id);
    OthersLeaveThread(finished, between, t);
    ExecuteNext(finished + between, (t, Remove));
    RemoveForgets(Execute(finished + between), t, k);
    StepKeepsClosed(Execute(finished + between), t, Remove, id);
    EndedForEver(through, more, id);
  }
}
