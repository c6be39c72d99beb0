/** The attempt loop of the clients: guards, attempts, backoff and the events it leaves. */
module Retries {
  import opened Errors
  import opened Numbers

  const U32_MAX: nat := 0xFFFF_FFFF
  type U32 = n: nat | n <= U32_MAX

  // A duration in nanoseconds: at most 2^64 - 1 seconds and 999999999 nanoseconds.
  const DURATION_MAX: nat := 0xFFFF_FFFF_FFFF_FFFF * 1_000_000_000 + 999_999_999
  type Duration = n: nat | n <= DURATION_MAX

  datatype RetryPolicy = RetryPolicy(maxRetries: U32, baseDelay: Duration, maxDelay: Duration, jitter: bool)

  // ---- backoff --------------------------------------------------------------------

  function Pow2(n: nat): (p: nat)
    ensures p >= 1
  {
    if n == 0 then 1 else 2 * Pow2(n - 1)
  }

  /** Saturating exponentiation by repeated saturating multiplication. */
  function SaturatingPow2(n: nat): (p: U32)
    ensures p >= 1
  {
    if n == 0 then 1 else Min(2 * SaturatingPow2(n - 1), U32_MAX)
  }

  function SaturatingMul(d: Duration, factor: U32): Duration { Min(d * factor, DURATION_MAX) }

  /** The delay before jitter. The error plays no part in it. */
  function RawDelay(p: RetryPolicy, retriesDone: nat): Duration {
    Min(SaturatingMul(p.baseDelay, SaturatingPow2(retriesDone)), p.maxDelay)
  }

  /** The delay with a jitter of `millionths` of it; what floating point rounds is cut off here. */
  function DelayFor(p: RetryPolicy, retriesDone: nat, millionths: nat): nat
    requires millionths < 1_000_000
  {
    if p.jitter then RawDelay(p, retriesDone) * millionths / 1_000_000 else RawDelay(p, retriesDone)
  }

  lemma {:induction false} SaturatingPow2Is(n: nat)
    ensures SaturatingPow2(n) == Min(Pow2(n), U32_MAX)
  {
    if n > 0 {
      SaturatingPow2Is(n - 1);
    }
  }

  /** Both saturations are invisible behind the cap. */
  lemma RawDelayIs(p: RetryPolicy, n: nat)
    ensures RawDelay(p, n) == Min(p.baseDelay * Min(Pow2(n), U32_MAX), p.maxDelay)
  {
    SaturatingPow2Is(n);
  }

  lemma {:induction false} BackoffGrows(p: RetryPolicy, m: nat, n: nat)
    requires m <= n
    ensures RawDelay(p, m) <= RawDelay(p, n) <= p.maxDelay
    decreases n - m
  {
    if m < n {
      BackoffGrows(p, m, n - 1);
      var a, b := SaturatingPow2(n - 1), SaturatingPow2(n);
      assert a <= b;
      MulGrows(p.baseDelay, a, b);
    }
  }

  lemma JitterOnlyShortens(p: RetryPolicy, n: nat, millionths: nat)
    requires millionths < 1_000_000
    ensures DelayFor(p, n, millionths) <= RawDelay(p, n) <= p.maxDelay
  {
    var raw := RawDelay(p, n);
    MulGrows(raw, millionths, 1_000_000);
  }

  /** It takes exactly that fraction, rounded down; without jitter the raw delay is what is slept. */
  lemma JitterIs(p: RetryPolicy, n: nat, millionths: nat)
    requires millionths < 1_000_000
    ensures !p.jitter ==> DelayFor(p, n, millionths) == Min(p.baseDelay * Min(Pow2(n), U32_MAX), p.maxDelay)
    ensures p.jitter ==> var d, raw := DelayFor(p, n, millionths), RawDelay(p, n);
      d * 1_000_000 <= raw * millionths < (d + 1) * 1_000_000
  {
    RawDelayIs(p, n);
    hide RawDelay;
    var x := RawDelay(p, n) * millionths;
    assert x == x / 1_000_000 * 1_000_000 + x % 1_000_000;
  }

  // ---- errors and attempts ----------------------------------------------------------

  predicate IsRetryable(e: Error) {
    match e
    case Transport => true
    case Api(status) => status == 408 || status == 425 || status == 429 || 500 <= status <= 599
    case _ => false
  }

  function StatusOf(e: Error): Option<nat> {
    if e.Api? then Some(e.status) else None
  }

  datatype Event =
    | AttemptResponse(attempt: nat, status: nat)
    | AttemptError(attempt: nat, error: Error)
    | Retry(attempt: nat, next: nat, delay: nat, error: Error)
    | Success(attempts: nat, status: nat)
    | Failure(attempts: nat, seen: Option<nat>, error: Error)

  /** What the network makes of one attempt. */
  datatype Wire =
    | BuildFails
    | SendFails
    | Response(status: nat, bodyFails: bool)

  predicate IsAccepted(status: nat, accepted: set<nat>) { 200 <= status <= 299 || status in accepted }

  /** One attempt: the status of a good response or the error. */
  function Attempted(wire: Wire, accepted: set<nat>): Result<nat> {
    match wire
    case BuildFails => Err(Transport)
    case SendFails => Err(Transport)
    case Response(status, bodyFails) =>
      if !IsAccepted(status, accepted) then Err(Api(status))
      else if bodyFails then Err(Transport)
      else Ok(status)
  }

  /** The one event of an attempt: whatever happened to its body, a refused response is a response. */
  function AttemptEvent(attempt: nat, wire: Wire, accepted: set<nat>): Event {
    match wire
    case BuildFails => AttemptError(attempt, Transport)
    case SendFails => AttemptError(attempt, Transport)
    case Response(status, bodyFails) =>
      if !IsAccepted(status, accepted) || !bodyFails then AttemptResponse(attempt, status)
      else AttemptError(attempt, Transport)
  }

  predicate IsAttempt(e: Event, attempt: nat) {
    (e.AttemptResponse? || e.AttemptError?) && e.attempt == attempt
  }

  /**
   * One attempt leaves one event, numbered as told, and that is a response exactly if a status came
   * back that is refused, or accepted with a body that could be read. Only then does the caller get
   * the status, as a success or as the error it is; everything else is a transport error.
   */
  method SendRawOnce(attempt: nat, wire: Wire, accepted: set<nat>) returns (r: Result<nat>, event: Event)
    ensures IsAttempt(event, attempt)
    ensures event.AttemptResponse? <==> wire.Response? && (IsAccepted(wire.status, accepted) ==> !wire.bodyFails)
    ensures r.Ok? <==> wire.Response? && IsAccepted(wire.status, accepted) && !wire.bodyFails
    ensures r.Ok? ==> r.value == wire.status
    ensures r.Err? ==> r.error == if event.AttemptResponse? then Api(wire.status) else Transport
    ensures if event.AttemptResponse? then event.status == wire.status else r == Err(event.error)
  {
    match wire {
      case BuildFails =>
        return Err(Transport), AttemptError(attempt, Transport);
      case SendFails =>
        return Err(Transport), AttemptError(attempt, Transport);
      case Response(status, bodyFails) =>
        if !IsAccepted(status, accepted) {
          return Err(Api(status)), AttemptResponse(attempt, status);
        }
        if bodyFails {
          return Err(Transport), AttemptError(attempt, Transport);
        }
        return Ok(status), AttemptResponse(attempt, status);
    }
  }

  /** These clauses leave no choice. */
  lemma AttemptIs(attempt: nat, wire: Wire, accepted: set<nat>, r: Result<nat>, event: Event)
    requires IsAttempt(event, attempt)
    requires event.AttemptResponse? <==> wire.Response? && (IsAccepted(wire.status, accepted) ==> !wire.bodyFails)
    requires r.Ok? <==> wire.Response? && IsAccepted(wire.status, accepted) && !wire.bodyFails
    requires r.Ok? ==> r.value == wire.status
    requires r.Err? ==> r.error == if event.AttemptResponse? then Api(wire.status) else Transport
    requires if event.AttemptResponse? then event.status == wire.status else r == Err(event.error)
    ensures r == Attempted(wire, accepted) && event == AttemptEvent(attempt, wire, accepted)
  {
  }

  // ---- the loop -----------------------------------------------------------------------

  datatype Method = GET | HEAD | OPTIONS | POST | PUT | DELETE | PATCH

  predicate IsSafe(m: Method) { m.GET? || m.HEAD? || m.OPTIONS? }

  /** A request with its options, as far as the loop looks at them. */
  datatype Request = Request(
    verb: Method,
    accepted: set<nat>,
    policy: RetryPolicy,
    optionsError: Option<Error>,
    headersError: Option<Error>,
    continuation: bool,
    overrides: bool,
    urlError: Option<Error>)

  /** The environment of a run: what becomes of each attempt, and the jitter of each delay. */
  datatype Run = Run(wire: nat -> Wire, millionths: nat -> nat) {
    function Millionths(k: nat): nat { millionths(k) % 1_000_000 }
  }

  /** Why nothing is sent at all, if so. */
  function GuardError(q: Request): Option<Error> {
    if q.optionsError.Some? then q.optionsError
    else if q.headersError.Some? then q.headersError
    else if q.continuation && q.overrides then Some(InvalidRequest)
    else if q.policy.maxRetries > 0 && !IsSafe(q.verb) then Some(InvalidRequest)
    else q.urlError
  }

  /** The guards are asked in turn, and the first that fails says why. */
  lemma GuardsInTurn(q: Request)
    ensures GuardError(q).None? <==>
      && q.optionsError.None? && q.headersError.None? && q.urlError.None?
      && !(q.continuation && q.overrides) && (q.policy.maxRetries == 0 || q.verb !in [POST, PUT, DELETE, PATCH])
    ensures q.optionsError.Some? ==> GuardError(q) == q.optionsError
    ensures q.optionsError.None? && q.headersError.Some? ==> GuardError(q) == q.headersError
    ensures q.optionsError.None? && q.headersError.None? && q.continuation && q.overrides ==> GuardError(q) == Some(InvalidRequest)
    ensures q.optionsError.None? && q.headersError.None? && q.policy.maxRetries > 0 && !IsSafe(q.verb) ==> GuardError(q) == Some(InvalidRequest)
    ensures
      if q.optionsError.Some? || q.headersError.Some? || (q.continuation && q.overrides) then true
      else (q.policy.maxRetries == 0 || IsSafe(q.verb)) ==> GuardError(q) == q.urlError
  {
  }

  function Outcome(q: Request, run: Run, k: nat): Result<nat> { Attempted(run.wire(k), q.accepted) }

  /** Whether attempt `k`, counted from zero, is followed by another one. */
  predicate GoesOn(q: Request, run: Run, k: nat) {
    var r := Outcome(q, run, k);
    r.Err? && k < q.policy.maxRetries && IsRetryable(r.error)
  }

  /**
   * What an attempt comes to asks for another one: no status, an accepted one without a readable
   * body, or a refused one that says to try again.
   */
  predicate AsksAgain(wire: Wire, accepted: set<nat>) {
    match wire
    case Response(status, bodyFails) =>
      if 200 <= status < 300 || status in accepted then bodyFails
      else status in [408, 425, 429] || 500 <= status < 600
    case _ => true
  }

  /** Within the budget, and only there, it gets one. */
  lemma GoesOnExactly(q: Request, run: Run, k: nat)
    ensures GoesOn(q, run, k) <==> k < q.policy.maxRetries && AsksAgain(run.wire(k), q.accepted)
  {
  }

  /** The first attempt from `k` on that is not followed by another one. */
  function LastAttempt(q: Request, run: Run, k: nat): (last: nat)
    ensures k <= last && !GoesOn(q, run, last)
    ensures forall i | k <= i < last :: GoesOn(q, run, i)
    decreases if k <= q.policy.maxRetries then q.policy.maxRetries - k + 1 else 0
  {
    if GoesOn(q, run, k) then LastAttempt(q, run, k + 1) else k
  }

  // Attempts are counted in 32 bits. A build with overflow checks stops where this wraps.
  function Count(n: nat): U32 { n % (U32_MAX + 1) }

  function Delay(q: Request, run: Run, k: nat): nat { DelayFor(q.policy, k, run.Millionths(k)) }

  function RetryEvent(q: Request, run: Run, k: nat): Event
    requires GoesOn(q, run, k)
  {
    Retry(Count(k + 1), Count(Count(k + 1) + 1), Delay(q, run, k), Outcome(q, run, k).error)
  }

  /** The events of the first `k` attempts, each followed by its retry. */
  function EventsBefore(q: Request, run: Run, k: nat): seq<Event>
    requires forall i | 0 <= i < k :: GoesOn(q, run, i)
  {
    if k == 0 then [] else
    var attempt := AttemptEvent(Count(k), run.wire(k - 1), q.accepted);
    EventsBefore(q, run, k - 1) + [attempt, RetryEvent(q, run, k - 1)]
  }

  /** The events of the attempts `0` to `k` and of the retries between them. */
  function EventsTo(q: Request, run: Run, k: nat): seq<Event>
    requires forall i | 0 <= i < k :: GoesOn(q, run, i)
  {
    EventsBefore(q, run, k) + [AttemptEvent(Count(k + 1), run.wire(k), q.accepted)]
  }

  /** The event between two attempts shows the sleep and what was slept for; without jitter the sleep is the backoff. */
  predicate RetryShown(q: Request, run: Run, e: Event, k: nat, sleep: nat) {
    && e.Retry? && e.delay == sleep && Outcome(q, run, k) == Err(e.error)
    && (!q.policy.jitter ==> sleep == Min(q.policy.baseDelay * Min(Pow2(k), U32_MAX), q.policy.maxDelay))
  }

  predicate ShowsRetries(q: Request, run: Run, events: seq<Event>, sleeps: seq<nat>) {
    && |events| == 2 * |sleeps| + 1
    && forall k | 0 <= k < |sleeps| :: RetryShown(q, run, events[2 * k + 1], k, sleeps[k])
  }

  method SendRawSpec(q: Request, run: Run)
    returns (r: Result<nat>, attempts: U32, sent: nat, events: seq<Event>, sleeps: seq<nat>)
    ensures GuardError(q).Some? ==>
      r == Err(GuardError(q).value) && attempts == 0 && sent == 0 && events == [] && sleeps == []
    ensures GuardError(q).None? ==>
      var last := LastAttempt(q, run, 0);
      && r == Outcome(q, run, last)
      && attempts == Count(last + 1) && sent == last + 1
      && events == EventsTo(q, run, last)
      && |sleeps| == last && forall i | 0 <= i < last :: sleeps[i] == Delay(q, run, i)
    ensures GuardError(q).None? ==> ShowsRetries(q, run, events, sleeps)
    // within the budget, and a method that is not safe is sent at most once
    ensures sent <= if IsSafe(q.verb) then q.policy.maxRetries + 1 else 1
    ensures Sum(sleeps) <= q.policy.maxRetries * q.policy.maxDelay
  {
    hide IsRetryable, Attempted, AttemptEvent, DelayFor, Count, ShowsRetries;
    NoSleep(q.policy.maxRetries, q.policy.maxDelay);
    attempts, sent, events, sleeps := 0, 0, [], [];
    if q.optionsError.Some? {
      r := Err(q.optionsError.value);
      return;
    }
    if q.headersError.Some? {
      r := Err(q.headersError.value);
      return;
    }
    if q.continuation && q.overrides {
      r := Err(InvalidRequest);
      return;
    }
    if q.policy.maxRetries > 0 && !IsSafe(q.verb) {
      r := Err(InvalidRequest);
      return;
    }
    if q.urlError.Some? {
      r := Err(q.urlError.value);
      return;
    }
    r, attempts, sent, events, sleeps := AttemptLoop(q, run);
    LastAttemptIs(q, run);
    TotalSleepIsBounded(q, run, sleeps);
    RetriesShow(q, run, sleeps);
  }

  lemma RetriesShow(q: Request, run: Run, sleeps: seq<nat>)
    requires forall i | 0 <= i < |sleeps| :: GoesOn(q, run, i) && sleeps[i] == Delay(q, run, i)
    ensures ShowsRetries(q, run, EventsTo(q, run, |sleeps|), sleeps)
  {
    hide Count, RetryShown, EventsBefore, GoesOn, Delay, RetryEvent;
    var n := |sleeps|;
    EventsAlternate(q, run, n);
    forall k | 0 <= k < n
      ensures RetryShown(q, run, EventsTo(q, run, n)[2 * k + 1], k, sleeps[k])
    {
      RetryAt(q, run, n, k);
      RetryIsShown(q, run, k);
    }
  }

  lemma RetryIsShown(q: Request, run: Run, k: nat)
    requires GoesOn(q, run, k)
    ensures RetryShown(q, run, RetryEvent(q, run, k), k, Delay(q, run, k))
  {
    hide Count, Outcome, DelayFor, Pow2;
    JitterIs(q.policy, k, run.Millionths(k));
  }

  lemma {:induction false} RetryAt(q: Request, run: Run, n: nat, k: nat)
    requires k < n && forall i | 0 <= i < n :: GoesOn(q, run, i)
    ensures 2 * k + 1 < |EventsBefore(q, run, n)| && EventsBefore(q, run, n)[2 * k + 1] == RetryEvent(q, run, k)
    decreases n
  {
    hide Count, Outcome, Delay, GoesOn;
    EventsAlternate(q, run, n - 1);
    if k < n - 1 {
      RetryAt(q, run, n - 1, k);
    }
  }

  lemma NoSleep(n: nat, d: nat)
    ensures Sum([]) <= n * d
  {
    MulGrows(d, 0, n);
  }

  method AttemptLoop(q: Request, run: Run)
    returns (r: Result<nat>, attempts: U32, sent: nat, events: seq<Event>, sleeps: seq<nat>)
    ensures var last := LastAttempt(q, run, 0);
      && r == Outcome(q, run, last)
      && attempts == Count(last + 1) && sent == last + 1
      && events == EventsTo(q, run, last)
      && |sleeps| == last && forall i | 0 <= i < last :: sleeps[i] == Delay(q, run, i)
  {
    hide IsRetryable, Attempted, AttemptEvent, DelayFor, Count, EventsBefore;
    sent, events, sleeps := 0, [], [];
    var retriesDone: nat := 0;
    NoEventsBefore(q, run);
    while true
      invariant retriesDone <= q.policy.maxRetries && sent == retriesDone && |sleeps| == retriesDone
      invariant forall i | 0 <= i < retriesDone :: GoesOn(q, run, i)
      invariant forall i | 0 <= i < retriesDone :: sleeps[i] == Delay(q, run, i)
      invariant LastAttempt(q, run, 0) == LastAttempt(q, run, retriesDone)
      invariant events == EventsBefore(q, run, retriesDone)
      decreases q.policy.maxRetries - retriesDone
    {
      var attempt: nat := Count(retriesDone + 1);
      var event;
      r, event := SendRawOnce(attempt, run.wire(retriesDone), q.accepted);
      AttemptIs(attempt, run.wire(retriesDone), q.accepted, r, event);
      events, sent := events + [event], sent + 1;
      if r.Ok? || !(retriesDone < q.policy.maxRetries && IsRetryable(r.error)) {
        attempts := attempt;
        return;
      }
      var delay := DelayFor(q.policy, retriesDone, run.Millionths(retriesDone));
      EventsGrow(q, run, retriesDone);
      events := events + [Retry(attempt, Count(attempt + 1), delay, r.error)];
      sleeps := sleeps + [delay];
      retriesDone := retriesDone + 1;
    }
  }

  lemma NoEventsBefore(q: Request, run: Run)
    ensures EventsBefore(q, run, 0) == []
  {
  }

  lemma EventsGrow(q: Request, run: Run, k: nat)
    requires forall i | 0 <= i <= k :: GoesOn(q, run, i)
    ensures EventsBefore(q, run, k + 1) == EventsTo(q, run, k) + [RetryEvent(q, run, k)]
  {
    hide GoesOn, Delay, Count, Outcome;
  }

  /** The outcome is that of the first attempt that succeeds, is not retryable or uses up the budget. */
  lemma LastAttemptIs(q: Request, run: Run)
    ensures var last := LastAttempt(q, run, 0);
      && last <= q.policy.maxRetries
      && (Outcome(q, run, last).Ok? || !IsRetryable(Outcome(q, run, last).error) || last == q.policy.maxRetries)
      && forall i | 0 <= i < last :: Outcome(q, run, i).Err? && IsRetryable(Outcome(q, run, i).error)
  {
    hide IsRetryable, Attempted;
    var last := LastAttempt(q, run, 0);
    if last > 0 {
      assert GoesOn(q, run, last - 1);
    }
    forall i | 0 <= i < last
      ensures Outcome(q, run, i).Err? && IsRetryable(Outcome(q, run, i).error)
    {
      assert GoesOn(q, run, i);
    }
  }

  /** Every run reports the number of attempts it made. */
  ghost predicate ReportsAll(q: Request) {
    forall run: Run :: Count(LastAttempt(q, run, 0) + 1) == LastAttempt(q, run, 0) + 1
  }

  /** That is so exactly when the budget is below the largest 32-bit number. */
  lemma ReportsAllExactly(q: Request)
    ensures ReportsAll(q) <==> q.policy.maxRetries < U32_MAX
  {
    if q.policy.maxRetries < U32_MAX {
      forall run: Run
        ensures Count(LastAttempt(q, run, 0) + 1) == LastAttempt(q, run, 0) + 1
      {
        LastAttemptIs(q, run);
      }
    } else {
      var run := Run(k => SendFails, k => 0);
      LastAttemptIs(q, run);
      assert Outcome(q, run, LastAttempt(q, run, 0)) == Err(Transport);
      assert Count(LastAttempt(q, run, 0) + 1) == 0;
    }
  }

  function Sum(xs: seq<nat>): nat { if xs == [] then 0 else xs[0] + Sum(xs[1..]) }

  lemma {:induction false} SumIsBounded(xs: seq<nat>, bound: nat)
    requires forall i | 0 <= i < |xs| :: xs[i] <= bound
    ensures Sum(xs) <= |xs| * bound
  {
    if xs != [] {
      SumIsBounded(xs[1..], bound);
      assert |xs| * bound == bound + (|xs| - 1) * bound;
    }
  }

  /** A run sleeps at most as often as the budget allows, each time at most the cap. */
  lemma TotalSleepIsBounded(q: Request, run: Run, sleeps: seq<nat>)
    requires |sleeps| == LastAttempt(q, run, 0)
    requires forall i | 0 <= i < |sleeps| :: sleeps[i] == Delay(q, run, i)
    ensures Sum(sleeps) <= q.policy.maxRetries * q.policy.maxDelay
  {
    hide LastAttempt, DelayFor, RawDelay;
    forall i | 0 <= i < |sleeps|
      ensures sleeps[i] <= q.policy.maxDelay
    {
      JitterOnlyShortens(q.policy, i, run.Millionths(i));
    }
    SumIsBounded(sleeps, q.policy.maxDelay);
    LastAttemptIs(q, run);
    MulGrows(q.policy.maxDelay, |sleeps|, q.policy.maxRetries);
  }

  // ---- the log of a custom operation --------------------------------------------------

  /** One run of a custom operation: its request is built, sent and its response decoded. */
  method SendWithResponse(request: Result<Request>, run: Run, decodeError: Option<Error>)
    returns (r: Result<nat>, log: seq<Event>, ghost sent: nat)
    // the log has one terminal event, of the same kind as the result
    ensures IsLog(log, sent)
    ensures r.Ok? ==> log[|log| - 1].Success? && log[|log| - 1].status == r.value
    ensures r.Err? ==> log[|log| - 1].Failure? && log[|log| - 1].error == r.error
    // the result is that of the first step that fails: the request, a guard, the last attempt, the decoding
    ensures request.Err? ==> sent == 0 && r == Err(request.error) && log[0].seen == None
    ensures request.Ok? && GuardError(request.value).Some? ==>
      sent == 0 && r == Err(GuardError(request.value).value) && log[0].seen == StatusOf(r.error)
    ensures request.Ok? && GuardError(request.value).None? ==>
      var last := LastAttempt(request.value, run, 0);
      var outcome := Outcome(request.value, run, last);
      && sent == last + 1 && |log| > 1 && log[..|log| - 1] == EventsTo(request.value, run, last)
      && r == (if outcome.Ok? && decodeError.Some? then Err(decodeError.value) else outcome)
      && (r.Err? ==> log[|log| - 1].seen == if outcome.Ok? then Some(outcome.value) else StatusOf(r.error))
  {
    hide LastAttempt, GuardError, EventsTo, Count, IsLog, Outcome;
    if request.Err? {
      log, r, sent := [Failure(0, None, request.error)], Err(request.error), 0;
      OneFailure(log);
      return;
    }
    var status, attempts, n, events, sleeps := SendRawSpec(request.value, run);
    sent := n;
    var last;
    match status {
      case Err(error) =>
        last, r := Failure(attempts, StatusOf(error), error), Err(error);
      case Ok(code) =>
        if decodeError.Some? {
          last, r := Failure(attempts, Some(code), decodeError.value), Err(decodeError.value);
        } else {
          last, r := Success(attempts, code), Ok(code);
        }
    }
    log := events + [last];
    if sent == 0 {
      OneFailure(log);
    } else {
      RunIsLog(request.value, run, sent - 1, last);
    }
  }

  /** The event between attempt `attempt` and the next one. */
  predicate IsRetry(e: Event, attempt: nat) {
    e.Retry? && e.attempt == Count(attempt) && e.next == Count(Count(attempt) + 1)
  }

  predicate IsTerminal(e: Event, attempts: nat) {
    (e.Success? || e.Failure?) && e.attempts == attempts
  }

  /**
   * With nothing sent the log is one failure. Else it alternates between attempts and
   * retries, begins and ends with an attempt, and one terminal event closes it.
   */
  predicate IsLog(log: seq<Event>, sent: nat) {
    if sent == 0 then |log| == 1 && log[0].Failure? && log[0].attempts == 0
    else
      && |log| == 2 * sent
      && (forall k | 0 <= k < sent :: IsAttempt(log[2 * k], Count(k + 1)))
      && (forall k | 1 <= k < sent :: IsRetry(log[2 * k - 1], k))
      && IsTerminal(log[|log| - 1], Count(sent))
  }

  lemma OneFailure(log: seq<Event>)
    requires |log| == 1 && log[0].Failure? && log[0].attempts == 0
    ensures IsLog(log, 0)
  {
  }

  lemma {:induction false} EventsAlternate(q: Request, run: Run, k: nat)
    requires forall i | 0 <= i < k :: GoesOn(q, run, i)
    ensures var events := EventsBefore(q, run, k);
      && |events| == 2 * k
      && (forall i | 0 <= i < k :: IsAttempt(events[2 * i], Count(i + 1)))
      && (forall i | 1 <= i <= k :: IsRetry(events[2 * i - 1], i))
  {
    hide Count, GoesOn, Outcome, Delay;
    if k > 0 {
      EventsAlternate(q, run, k - 1);
    }
  }

  lemma RunIsLog(q: Request, run: Run, k: nat, last: Event)
    requires k == LastAttempt(q, run, 0) && IsTerminal(last, Count(k + 1))
    ensures IsLog(EventsTo(q, run, k) + [last], k + 1)
  {
    hide Count, EventsBefore, GoesOn;
    EventsAlternate(q, run, k);
  }
}
