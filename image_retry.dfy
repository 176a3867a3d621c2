/** `retry_generate_image` of the image generator: one streaming request per
    attempt, the first inline payload of the stream as the result, and a
    bounded exponential backoff (in seconds) on rate-limit and availability
    errors. The remote model is a given function from the attempt number to
    the reply the model streams back for that attempt. */
module ImageRetry {
  import opened Common
  import opened Backoff

  newtype byte = b: int | 0 <= b < 256
  type Bytes = seq<byte>

  /** The pieces of one streamed chunk that the helper inspects. Python
      `None` is `Option.None`; an empty sequence stands for an empty list. */
  datatype Blob = Blob(data: Option<Bytes>)
  datatype Part = Part(inlineData: Option<Blob>)
  datatype Content = Content(parts: seq<Part>)
  datatype Candidate = Candidate(content: Option<Content>)
  datatype Chunk = Chunk(candidates: seq<Candidate>)

  /** How the stream ends after its chunks: normally, or by raising an
      exception (the request itself failing is a broken stream with no chunks). */
  datatype StreamEnd = Finished | Broken(error: string)
  datatype Response = Response(chunks: seq<Chunk>, end: StreamEnd)
  type Service = nat -> Response

  /** What the helper does: return a payload or `None`, or raise the error
      (given by its text `str(e)`). */
  datatype Outcome = Returned(data: Option<Bytes>) | Raised(error: string)
  datatype Run = Run(outcome: Outcome, trace: seq<Event>)

  const DefaultMaxRetries: int := 5

  /** The inline payload of a chunk, present only when the chunk has a first
      candidate with content and parts, and the first part carries non-empty
      inline data (Python truthiness of the data bytes). */
  function ChunkData(c: Chunk): (r: Option<Bytes>)
    ensures r.Some? ==> |r.value| > 0
  {
    if |c.candidates| == 0 then None
    else match c.candidates[0].content
      case None => None
      case Some(content) =>
        if |content.parts| == 0 then None
        else match content.parts[0].inlineData
          case None => None
          case Some(blob) =>
            match blob.data
            case Some(d) => if |d| > 0 then Some(d) else None
            case None => None
  }

  /** The payload of the first chunk that carries one. */
  function FirstData(chunks: seq<Chunk>): (r: Option<Bytes>)
    ensures r.None? <==> forall i :: 0 <= i < |chunks| ==> ChunkData(chunks[i]).None?
    ensures r.Some? ==> |r.value| > 0
  {
    if |chunks| == 0 then None
    else if ChunkData(chunks[0]).Some? then ChunkData(chunks[0])
    else
      var r := FirstData(chunks[1..]);
      assert forall i :: 1 <= i < |chunks| ==> chunks[i] == chunks[1..][i - 1];
      r
  }

  /** The result of one attempt: the stream is read until a payload shows
      up; a stream that ends without one returns `None`, unless it raises. */
  function Attempt(r: Response): Outcome {
    match FirstData(r.chunks)
    case Some(d) => Returned(Some(d))
    case None =>
      match r.end
      case Finished => Returned(None)
      case Broken(e) => Raised(e)
  }

  /** The error text marks rate limiting or a temporarily unavailable service. */
  predicate IsTransientMessage(e: string) {
    Contains(e, "503") || Contains(e, "429")
  }

  predicate TransientFailure(r: Response) {
    Attempt(r).Raised? && IsTransientMessage(Attempt(r).error)
  }

  function Transients(service: Service): nat -> bool {
    (a: nat) => TransientFailure(service(a))
  }

  lemma TransientsMeaning(service: Service)
    ensures forall a: nat :: Transients(service)(a) == TransientFailure(service(a))
  {
    forall a: nat ensures Transients(service)(a) == TransientFailure(service(a)) {
      assert Transients(service)(a) == TransientFailure(service(a));
    }
  }

  /** What `retry_generate_image(…, max_retries)` does against `service`:
      with no attempt permitted the loop body never runs and `None` comes
      back; otherwise every attempt before the stopping one failed
      transiently and was followed by a wait of 2^attempt seconds, and the
      stopping attempt's own outcome is the result. */
  function RetrySpec(service: Service, maxRetries: int): Run {
    if maxRetries <= 0 then Run(Returned(None), [])
    else
      var k := FirstStop(Transients(service), maxRetries, 0);
      Run(Attempt(service(k)), Schedule(k, 1) + [Call(k)])
  }

  method RetryGenerateImage(service: Service, maxRetries: int) returns (outcome: Outcome, trace: seq<Event>)
    ensures Run(outcome, trace) == RetrySpec(service, maxRetries)
  {
    trace := [];
    var attempt := 0;
    while attempt < maxRetries
      invariant attempt == 0 || attempt < maxRetries
      invariant maxRetries > 0 ==>
        FirstStop(Transients(service), maxRetries, 0) == FirstStop(Transients(service), maxRetries, attempt)
      invariant trace == Schedule(attempt, 1)
    {
      trace := trace + [Call(attempt)];
      var response := service(attempt);
      var data := StreamPayload(response.chunks);
      if data.Some? {
        outcome := Returned(data);
        assert Attempt(response) == outcome;
        StopsAt(service, maxRetries, attempt);
        return;
      }
      match response.end {
        case Finished =>
          outcome := Returned(None);
          assert Attempt(response) == outcome;
          StopsAt(service, maxRetries, attempt);
          return;
        case Broken(e) =>
          assert Attempt(response) == Raised(e);
          if IsTransientMessage(e) {
            if attempt < maxRetries - 1 {
              trace := trace + [Wait(Pow2(attempt))];
              GoesOn(service, maxRetries, attempt);
            } else {
              outcome := Raised(e);
              StopsAt(service, maxRetries, attempt);
              return;
            }
          } else {
            outcome := Raised(e);
            StopsAt(service, maxRetries, attempt);
            return;
          }
      }
      attempt := attempt + 1;
    }
    outcome := Returned(None);
  }

  /** The scan of the stream inside one attempt: the chunks are read in
      order until one carries a payload. */
  method StreamPayload(chunks: seq<Chunk>) returns (data: Option<Bytes>)
    ensures data == FirstData(chunks)
  {
    var i := 0;
    while i < |chunks|
      invariant 0 <= i <= |chunks|
      invariant forall j :: 0 <= j < i ==> ChunkData(chunks[j]).None?
    {
      data := ChunkData(chunks[i]);
      if data.Some? {
        FirstDataAt(chunks, i);
        return;
      }
      i := i + 1;
    }
    data := None;
  }

  /** The payload of the stream is that of the first chunk carrying one. */
  lemma {:induction false} FirstDataAt(chunks: seq<Chunk>, i: nat)
    requires i < |chunks| && ChunkData(chunks[i]).Some?
    requires forall j :: 0 <= j < i ==> ChunkData(chunks[j]).None?
    ensures FirstData(chunks) == ChunkData(chunks[i])
  {
    if i > 0 {
      assert forall j :: 0 <= j < |chunks| - 1 ==> chunks[1..][j] == chunks[j + 1];
      FirstDataAt(chunks[1..], i - 1);
    }
  }

  /** An attempt that the loop reaches and does not retry is the stopping one. */
  lemma StopsAt(service: Service, maxRetries: int, attempt: nat)
    requires attempt < maxRetries
    requires FirstStop(Transients(service), maxRetries, 0) == FirstStop(Transients(service), maxRetries, attempt)
    requires !TransientFailure(service(attempt)) || attempt == maxRetries - 1
    ensures RetrySpec(service, maxRetries) == Run(Attempt(service(attempt)), Schedule(attempt, 1) + [Call(attempt)])
  {
    TransientsMeaning(service);
  }

  /** A transient failure before the last permitted attempt moves the search
      for the stopping attempt one step on. */
  lemma GoesOn(service: Service, maxRetries: int, attempt: nat)
    requires attempt < maxRetries - 1 && TransientFailure(service(attempt))
    ensures FirstStop(Transients(service), maxRetries, attempt) == FirstStop(Transients(service), maxRetries, attempt + 1)
  {
    TransientsMeaning(service);
  }

  /** The helper makes at most `max_retries` calls, numbered 0, 1, 2, …; it
      waits 1, 2, 4, … seconds between consecutive calls, one wait fewer than
      calls; and it calls again only after a transient failure that was not
      on the last permitted attempt. */
  lemma {:induction false} RetryBackoff(service: Service, maxRetries: int)
    ensures var t := RetrySpec(service, maxRetries).trace;
      && |Calls(t)| <= (if maxRetries > 0 then maxRetries else 0)
      && (forall a :: 0 <= a < |Calls(t)| ==> Calls(t)[a] == a)
      && |Waits(t)| == (if |Calls(t)| > 0 then |Calls(t)| - 1 else 0)
      && (forall a :: 0 <= a < |Waits(t)| ==> Waits(t)[a] == Pow2(a))
      && (forall a :: 0 <= a < |Calls(t)| - 1 ==> TransientFailure(service(a)) && a < maxRetries - 1)
  {
    if maxRetries > 0 {
      var k := FirstStop(Transients(service), maxRetries, 0);
      RunShape(k, 1);
      TransientsMeaning(service);
    }
  }

  /** With no attempt permitted no call is made and the result is `None`. */
  lemma NoAttemptPermitted(service: Service, maxRetries: int)
    requires maxRetries <= 0
    ensures RetrySpec(service, maxRetries) == Run(Returned(None), [])
  {
  }

  /** Transient failures on attempts 0 .. k-1 followed, within the bound, by
      an attempt that returns: that attempt's result comes back after the
      waits 1, 2, …, 2^(k-1). A stream without any payload returns `None`
      and is not retried. */
  lemma {:induction false} ReturnsAfterTransientFailures(service: Service, maxRetries: int, k: nat)
    requires k < maxRetries
    requires forall a :: 0 <= a < k ==> TransientFailure(service(a))
    requires Attempt(service(k)).Returned?
    ensures RetrySpec(service, maxRetries) == Run(Attempt(service(k)), Schedule(k, 1) + [Call(k)])
    ensures Attempt(service(k)) == Returned(FirstData(service(k).chunks))
  {
    TransientsMeaning(service);
    FirstStopIs(Transients(service), maxRetries, k);
  }

  /** Transient failures on every permitted attempt: the failure of the last
      attempt is raised after `max_retries` calls. */
  lemma {:induction false} RaisesWhenRetriesExhausted(service: Service, maxRetries: int)
    requires maxRetries > 0
    requires forall a :: 0 <= a < maxRetries ==> TransientFailure(service(a))
    ensures RetrySpec(service, maxRetries).outcome == Raised(service(maxRetries - 1).end.error)
    ensures |Calls(RetrySpec(service, maxRetries).trace)| == maxRetries
  {
    TransientsMeaning(service);
    FirstStopIs(Transients(service), maxRetries, maxRetries - 1);
    RunShape(maxRetries - 1, 1);
  }

  /** An error without a 503 or 429 marker is raised unchanged on the
      attempt it happens, after the transient failures before it and with no
      wait after it; on the first attempt that means one call and no wait. */
  lemma {:induction false} RaisesOtherErrorsAtOnce(service: Service, maxRetries: int, k: nat)
    requires k < maxRetries
    requires forall a :: 0 <= a < k ==> TransientFailure(service(a))
    requires Attempt(service(k)).Raised? && !IsTransientMessage(Attempt(service(k)).error)
    ensures RetrySpec(service, maxRetries) == Run(Raised(service(k).end.error), Schedule(k, 1) + [Call(k)])
    ensures k == 0 ==> RetrySpec(service, maxRetries).trace == [Call(0)]
  {
    TransientsMeaning(service);
    FirstStopIs(Transients(service), maxRetries, k);
  }

  /** A returned payload is never empty and is the first payload of the
      stream of some permitted attempt that every earlier attempt failed
      transiently before. */
  lemma {:induction false} ReturnedPayload(service: Service, maxRetries: int)
    requires RetrySpec(service, maxRetries).outcome.Returned?
    requires RetrySpec(service, maxRetries).outcome.data.Some?
    ensures |RetrySpec(service, maxRetries).outcome.data.value| > 0
    ensures exists k :: 0 <= k < maxRetries && FirstData(service(k).chunks) == RetrySpec(service, maxRetries).outcome.data
                       && forall a :: 0 <= a < k ==> TransientFailure(service(a))
  {
    assert maxRetries > 0;
    var k := FirstStop(Transients(service), maxRetries, 0);
    TransientsMeaning(service);
    assert RetrySpec(service, maxRetries).outcome == Attempt(service(k));
    assert FirstData(service(k).chunks) == RetrySpec(service, maxRetries).outcome.data;
  }
}
