/** The request-scoped attributes a client keeps for its event handlers, and the instruction-file
    fetch that re-enters the same handlers in the middle of a get. */
module RequestContext {
  import opened Wrappers

  /** What handlers were asked to do, with the attributes they found, and each nested fetch, logged
      before S3 is asked and so also when it fails. */
  datatype Event =
    | EncryptObject(context: Option<string>)                                            // body of a put
    | DecryptObject(bucket: Option<string>, key: Option<string>, context: Option<string>)   // body taken as ciphertext
    | FetchInstructions(bucket: Option<string>, instructionKey: string)                  // nested get
    | ParseInstructions(key: Option<string>)                                            // body taken as an instruction file

  datatype RequestError = ServiceError | HandlerError | InstructionModeInPut

  /** How one call to S3 goes. A response taken as an object has a length or not, makes the client
      fetch an instruction file or not, and passes the other checks or not; one taken as an
      instruction file parses or not, and describes an object or not. */
  datatype Response =
    | NoAnswer       // the call raised; no handler runs after it
    | Refused        // an error response, without a body
    | Answered(hasLength: bool, needsInstructionFile: bool, passesChecks: bool, parses: bool, describes: bool)
  {
    predicate IsObject() {
      Answered? && hasLength
    }

    predicate IsInstructionFile() {
      Answered? && parses && describes
    }
  }

  /** One thread's context, the S3 client that carries it, and the handlers registered on it. What S3
      answers, call by call, is given by a schedule. */
  class Plugin {
    const responses: nat -> Response
    var calls: nat
    // Attributes set for one request and removed after it; None when absent.
    var encryptionContext: Option<string>
    var bucket: Option<string>
    var key: Option<string>
    var instructionSuffix: Option<string>
    // The flag around the nested fetch. It is set to False, not removed.
    var instructionFileMode: bool
    ghost var log: seq<Event>

    constructor (responses: nat -> Response)
      ensures Clean() && log == [] && calls == 0 && this.responses == responses
    {
      this.responses, calls := responses, 0;
      encryptionContext, bucket, key, instructionSuffix := None, None, None, None;
      instructionFileMode := false;
      log := [];
    }

    /** Between calls nothing of a request is left. */
    ghost predicate Clean()
      reads this
    {
      !instructionFileMode && encryptionContext == None && bucket == None && key == None && instructionSuffix == None
    }

    /** The suffix of instruction files, with its default when none was set. */
    function Suffix(): string
      reads this
    {
      if instructionSuffix.Some? then instructionSuffix.value else ".instruction"
    }

    /** What a get does, given the responses it meets. */
    function Events(bucketName: string, objectKey: string, suffix: string, context: Option<string>): seq<Event>
      reads this
    {
      Did(responses(calls), responses(calls + 1), Get(context, bucketName, objectKey, suffix))
    }

    /** The client's get_object: set the attributes, call S3, and remove them on every exit. It
        succeeds exactly when S3 returns an object with a length that passes the checks and, if that
        needs one, an instruction file that parses and describes it. The response is taken as
        ciphertext at most once, with this request's attributes; the instruction file is fetched at
        most once, from the same bucket under the key with the suffix, and never taken as ciphertext. */
    method GetObject(context: Option<string>, bucketName: string, objectKey: string, suffix: string)
      returns (r: Result<(), RequestError>)
      requires !instructionFileMode
      modifies this
      ensures Clean()
      ensures r.Ok? <==>
              && old(responses(calls)).IsObject() && old(responses(calls)).passesChecks
              && (old(responses(calls)).needsInstructionFile ==> old(responses(calls + 1)).IsInstructionFile())
      ensures log == old(log) + old(Events(bucketName, objectKey, suffix, context))
      ensures calls == old(calls) + 1 + Fetches(old(responses(calls)))
      ensures old(Events(bucketName, objectKey, suffix, context)) <= Allowed(Get(context, bucketName, objectKey, suffix))
      ensures r.Ok? ==> |old(Events(bucketName, objectKey, suffix, context))| in {1, 3}
    {
      encryptionContext, instructionSuffix := context, Some(suffix);
      bucket, key := Some(bucketName), Some(objectKey);
      r := WrappedGetObject(objectKey);
      encryptionContext, bucket, key, instructionSuffix := None, None, None, None;
    }

    /** What a get in progress does: only parse in instruction-file mode, all of it otherwise. */
    ghost function Handled(first: Response, second: Response): seq<Event>
      reads this
    {
      if instructionFileMode then
        if first.Answered? then [ParseInstructions(key)] else []
      else if !first.IsObject() then []
      else [DecryptObject(bucket, key, encryptionContext)] +
           if !first.needsInstructionFile || key == None then []
           else Nested(second, bucket, key.value + Suffix())
    }

    ghost predicate Succeeds(first: Response, second: Response)
      reads this
    {
      if instructionFileMode then
        first.Answered? && first.parses
      else
        first.IsObject() && first.passesChecks && (first.needsInstructionFile ==> second.IsInstructionFile())
    }

    /** S3's GetObject with the after-call handler, which also runs on error responses. */
    method WrappedGetObject(requested: string) returns (r: Result<(), RequestError>)
      requires key == Some(requested)
      modifies this
      ensures instructionFileMode == old(instructionFileMode) && instructionSuffix == old(instructionSuffix)
      ensures encryptionContext == old(encryptionContext) && bucket == old(bucket)
      ensures log == old(log) + old(Handled(responses(calls), responses(calls + 1)))
      ensures r.Ok? <==> old(Succeeds(responses(calls), responses(calls + 1)))
      ensures calls == old(calls) + 1 + if old(instructionFileMode) then 0 else Fetches(old(responses(calls)))
      decreases !instructionFileMode, 1
    {
      var response := responses(calls);
      calls := calls + 1;
      if response.NoAnswer? {
        return Err(ServiceError);
      }
      r := OnGetObjectAfterCall(response);
      if r.Ok? && response.Refused? {
        r := Err(ServiceError);
      }
    }

    method OnGetObjectAfterCall(response: Response) returns (r: Result<(), RequestError>)
      requires key.Some?
      modifies this
      ensures instructionFileMode == old(instructionFileMode) && instructionSuffix == old(instructionSuffix)
      ensures encryptionContext == old(encryptionContext) && bucket == old(bucket)
      ensures log == old(log) + old(Handled(response, responses(calls)))
      ensures response.Answered? ==> (r.Ok? <==> old(Succeeds(response, responses(calls))))
      ensures !response.Answered? ==> (r.Ok? <==> !instructionFileMode)
      ensures calls == old(calls) + if instructionFileMode then 0 else Fetches(response)
      decreases !instructionFileMode, 0
    {
      if instructionFileMode {
        if !response.Answered? {
          return Err(HandlerError);
        }
        log := log + [ParseInstructions(key)];
        return if response.parses then Ok(()) else Err(HandlerError);
      }
      if !response.Answered? {
        return Ok(());
      }
      if !response.hasLength {
        return Err(HandlerError);
      }
      log := log + [DecryptObject(bucket, key, encryptionContext)];
      if response.needsInstructionFile {
        r := FetchInstructionFile(key.value + Suffix());
        if r.Err? {
          return;
        }
      }
      r := if response.passesChecks then Ok(()) else Err(HandlerError);
    }

    /** Fetch in instruction-file mode; the flag goes off however the nested call ends. */
    method FetchInstructionFile(instructionKey: string) returns (r: Result<(), RequestError>)
      requires !instructionFileMode
      modifies this
      ensures !instructionFileMode && instructionSuffix == old(instructionSuffix)
      ensures encryptionContext == old(encryptionContext) && bucket == old(bucket)
      ensures log == old(log) + Nested(old(responses(calls)), bucket, instructionKey)
      ensures r.Ok? <==> old(responses(calls)).IsInstructionFile()
      ensures calls == old(calls) + 1
      decreases false, 2
    {
      ghost var response := responses(calls);
      var describes := responses(calls).Answered? && responses(calls).describes;
      instructionFileMode := true;
      key := Some(instructionKey);
      log := log + [FetchInstructions(bucket, instructionKey)];
      r := WrappedGetObject(instructionKey);
      instructionFileMode := false;
      if r.Ok? && !describes {
        r := Err(HandlerError);
      }
    }

    /** The client's put_object: its handler encrypts under this request's context and no other. It
        succeeds exactly when that works and S3 takes the object; a put never finds instruction-file
        mode on. */
    method PutObject(context: Option<string>, encrypts: bool) returns (r: Result<(), RequestError>)
      requires Clean()
      modifies this
      ensures Clean() && log == old(log) + [EncryptObject(context)]
      ensures r.Ok? <==> encrypts && old(responses(calls)).Answered?
      ensures calls == old(calls) + if encrypts then 1 else 0
      ensures r != Err(InstructionModeInPut)
    {
      encryptionContext := context;
      r := OnPutObjectBeforeCall(encrypts);
      if r.Ok? {
        if !responses(calls).Answered? {
          r := Err(ServiceError);
        }
        calls := calls + 1;
      }
      encryptionContext := None;
    }

    /** `encrypts` says whether encryption under the context it finds succeeds. */
    method OnPutObjectBeforeCall(encrypts: bool) returns (r: Result<(), RequestError>)
      modifies this`log
      ensures r == Err(InstructionModeInPut) <==> instructionFileMode
      ensures !instructionFileMode ==> (r.Ok? <==> encrypts) && log == old(log) + [EncryptObject(encryptionContext)]
    {
      if instructionFileMode {
        return Err(InstructionModeInPut);
      }
      log := log + [EncryptObject(encryptionContext)];
      r := if encrypts then Ok(()) else Err(HandlerError);
    }

    method Perform(request: Call, encrypts: bool)
      requires Clean()
      modifies this
      ensures Clean()
      ensures log == old(log) + Steps(responses, old(calls), request)
      ensures calls == NextCall(responses, old(calls), encrypts, request)
    {
      match request {
        case Get(context, b, k, suffix) => var _ := GetObject(context, b, k, suffix);
        case Put(context) => var _ := PutObject(context, encrypts);
      }
    }

    /** The next call of a sequence. */
    method PerformNext(requests: seq<Call>, i: nat, encrypts: nat -> bool, ghost before: seq<Event>, ghost from: nat)
      requires Clean() && i < |requests| && Told(before, from, encrypts, requests[..i])
      modifies this
      ensures Clean() && Told(before, from, encrypts, requests[..i + 1])
    {
      StoryStep(responses, from, encrypts, requests, i);
      Perform(requests[i], encrypts(i));
    }

    /** Any sequence of calls on one thread, each failing anywhere or not at all: the log is the one the
        responses determine, and nothing of a request is left. */
    method Session(requests: seq<Call>, encrypts: nat -> bool)
      requires Clean()
      modifies this
      ensures Clean()
      ensures Told(old(log), old(calls), encrypts, requests)
    {
      ghost var before, from := log, calls;
      for i := 0 to |requests|
        invariant Clean() && Told(before, from, encrypts, requests[..i])
      {
        PerformNext(requests, i, encrypts, before, from);
      }
      assert requests[..|requests|] == requests;
    }

    /** Since `before` and the response `from`, what these calls do was logged. */
    ghost predicate Told(before: seq<Event>, from: nat, encrypts: nat -> bool, requests: seq<Call>)
      reads this
    {
      var (events, next) := Story(responses, from, encrypts, requests);
      log == before + events && calls == next
    }
  }

  datatype Call = Get(context: Option<string>, bucket: string, key: string, suffix: string) | Put(context: Option<string>)

  /** A nested fetch, and the parse of what it returned. */
  function Nested(response: Response, bucket: Option<string>, instructionKey: string): seq<Event> {
    [FetchInstructions(bucket, instructionKey)] + if response.Answered? then [ParseInstructions(Some(instructionKey))] else []
  }

  /** All a call may do, in this order and each once: a get that goes all the way decrypts with its own
      attributes, then fetches and parses one instruction file. */
  function Allowed(c: Call): seq<Event> {
    match c
    case Get(context, bucket, key, suffix) =>
      [DecryptObject(Some(bucket), Some(key), context), FetchInstructions(Some(bucket), key + suffix),
       ParseInstructions(Some(key + suffix))]
    case Put(context) => [EncryptObject(context)]
  }

  /** How much of that a get does, given the responses to its own and to the nested call. */
  function Did(first: Response, second: Response, c: Call): seq<Event>
    requires c.Get?
  {
    if !first.IsObject() then []
    else if !first.needsInstructionFile then Allowed(c)[..1]
    else if !second.Answered? then Allowed(c)[..2]
    else Allowed(c)
  }

  /** The log is made of what each call was allowed to do, call by call. */
  ghost predicate Explained(requests: seq<Call>, log: seq<Event>)
    decreases |requests|
  {
    if requests == [] then
      log == []
    else
      var n := |requests| - 1;
      exists k: nat :: k <= |log| && Explained(requests[..n], log[..k]) && log[k..] <= Allowed(requests[n])
  }

  /** How many nested calls a get makes. */
  function Fetches(first: Response): nat {
    if first.IsObject() && first.needsInstructionFile then 1 else 0
  }

  /** What one call does, and which response comes after it. */
  function Steps(responses: nat -> Response, calls: nat, request: Call): (r: seq<Event>)
    ensures r <= Allowed(request)
  {
    if request.Get? then Did(responses(calls), responses(calls + 1), request) else Allowed(request)
  }

  function NextCall(responses: nat -> Response, calls: nat, encrypts: bool, request: Call): nat {
    if request.Get? then calls + 1 + Fetches(responses(calls)) else if encrypts then calls + 1 else calls
  }

  /** What a sequence of calls does, given S3's responses from the `from`-th on and which of the puts can
      encrypt; and which response comes next. */
  function Story(responses: nat -> Response, from: nat, encrypts: nat -> bool, requests: seq<Call>): (seq<Event>, nat) {
    if requests == [] then ([], from)
    else
      var n := |requests| - 1;
      var (log, calls) := Story(responses, from, encrypts, requests[..n]);
      (log + Steps(responses, calls, requests[n]), NextCall(responses, calls, encrypts(n), requests[n]))
  }

  lemma StoryStep(responses: nat -> Response, from: nat, encrypts: nat -> bool, requests: seq<Call>, i: nat)
    requires i < |requests|
    ensures var (log, calls) := Story(responses, from, encrypts, requests[..i]);
            Story(responses, from, encrypts, requests[..i + 1]) ==
              (log + Steps(responses, calls, requests[i]), NextCall(responses, calls, encrypts(i), requests[i]))
  {
    assert requests[..i + 1][..i] == requests[..i];
  }

  /** Whatever the responses, each call does only what it may. */
  lemma {:induction false} StoryIsExplained(responses: nat -> Response, from: nat, encrypts: nat -> bool, requests: seq<Call>)
    ensures Explained(requests, Story(responses, from, encrypts, requests).0)
  {
    if requests != [] {
      var n := |requests| - 1;
      var (log, calls) := Story(responses, from, encrypts, requests[..n]);
      StoryIsExplained(responses, from, encrypts, requests[..n]);
      var all, k := Story(responses, from, encrypts, requests).0, |log|;
      assert all[..k] == log;
      assert all[k..] <= Allowed(requests[n]);
    }
  }
}
