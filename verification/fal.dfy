/** The Fal.ai caller (services/geminiService.ts, `callFalAI`): endpoint
    routing, slash stripping, the submit with one retry, and the queue
    polling loop. The network is abstracted: each fetch is an input event
    (it threw, or it answered with a status and a payload), and the clock
    advances only by the sleeps the loop performs. */
module Fal {

  import opened Wrappers
  import opened Strings

  /** Endpoints whose name mentions a video family go through the queue API
      and are polled; every other endpoint answers synchronously. */
  predicate IsVideoEndpoint(endpoint: string) {
    Contains(endpoint, "veo") || Contains(endpoint, "video") || Contains(endpoint, "movie")
    || Contains(endpoint, "minimax") || Contains(endpoint, "kling") || Contains(endpoint, "luma")
  }

  /** The names that mark a video family, in the order they are tested. */
  const VideoFamilies: seq<string> := ["veo", "video", "movie", "minimax", "kling", "luma"]

  /** An endpoint is a video one exactly when it mentions one of the
      families. */
  lemma VideoEndpointIff(endpoint: string)
    ensures IsVideoEndpoint(endpoint) <==> exists f :: f in VideoFamilies && Contains(endpoint, f)
  {
    if IsVideoEndpoint(endpoint) {
      var f :| f in VideoFamilies[..] && Contains(endpoint, f);
    }
  }

  function Subdomain(endpoint: string): (r: string)
    ensures r == "queue" || r == "fal"
    ensures r == "queue" <==> IsVideoEndpoint(endpoint)
  {
    if IsVideoEndpoint(endpoint) then "queue" else "fal"
  }

  predicate AllSlashes(s: string) {
    forall i :: 0 <= i < |s| ==> s[i] == '/'
  }

  /** The end of the run of '/' that starts at k. */
  function SlashRunEnd(s: string, k: nat): (n: nat)
    requires k <= |s|
    ensures k <= n <= |s| && forall i :: k <= i < n ==> s[i] == '/'
    ensures n == |s| || s[n] != '/'
    decreases |s| - k
  {
    if k < |s| && s[k] == '/' then SlashRunEnd(s, k + 1) else k
  }

  /** The start of the run of '/' that ends just before k. */
  function SlashRunStart(s: string, k: nat): (n: nat)
    requires k <= |s|
    ensures n <= k && forall i :: n <= i < k ==> s[i] == '/'
    ensures n == 0 || s[n - 1] != '/'
  {
    if k > 0 && s[k - 1] == '/' then SlashRunStart(s, k - 1) else k
  }

  /** The leading run of '/' removed. */
  function DropLeadingSlashes(s: string): (r: string)
    ensures |r| <= |s| && r == s[|s| - |r|..]
    ensures forall i :: 0 <= i < |s| - |r| ==> s[i] == '/'
    ensures r == [] || r[0] != '/'
  {
    s[SlashRunEnd(s, 0)..]
  }

  /** The trailing run of '/' removed. */
  function DropTrailingSlashes(s: string): (r: string)
    ensures |r| <= |s| && r == s[..|r|]
    ensures forall i :: |r| <= i < |s| ==> s[i] == '/'
    ensures r == [] || r[|r| - 1] != '/'
  {
    s[..SlashRunStart(s, |s|)]
  }

  /** `endpoint.replace(/^\/+|\/+$/g, '')`: the leading and trailing runs of
      '/' are removed, so the result neither starts nor ends with '/'. */
  function StripSlashes(endpoint: string): (r: string)
    ensures |r| <= |endpoint|
    ensures r == [] || (r[0] != '/' && r[|r| - 1] != '/')
  {
    DropTrailingSlashes(DropLeadingSlashes(endpoint))
  }

  /** Nothing between the two runs is removed: the stripped endpoint is the
      slice of the input between its leading and its trailing run of '/'. */
  lemma StripSlashesSlice(endpoint: string)
    ensures var a := SlashRunEnd(endpoint, 0);
      var r := StripSlashes(endpoint);
      a + |r| <= |endpoint| && r == endpoint[a..a + |r|]
      && AllSlashes(endpoint[..a]) && AllSlashes(endpoint[a + |r|..])
  {
    var d := DropLeadingSlashes(endpoint);
    var r := DropTrailingSlashes(d);
    assert StripSlashes(endpoint) == r;
    SlashRuns(endpoint, SlashRunEnd(endpoint, 0), d, r);
  }

  lemma SlashRuns(s: string, a: nat, d: string, r: string)
    requires a <= |s| && d == s[a..] && |r| <= |d| && r == d[..|r|]
    requires forall i :: 0 <= i < a ==> s[i] == '/'
    requires forall i :: |r| <= i < |d| ==> d[i] == '/'
    ensures a + |r| <= |s| && r == s[a..a + |r|]
    ensures AllSlashes(s[..a]) && AllSlashes(s[a + |r|..])
  {
    assert forall i :: 0 <= i < a ==> s[..a][i] == s[i];
    var t := s[a + |r|..];
    forall i | 0 <= i < |t|
      ensures t[i] == '/'
    {
      assert t[i] == d[|r| + i];
    }
  }

  /** Stripping an already stripped endpoint changes nothing. */
  lemma StripSlashesIdempotent(endpoint: string)
    ensures StripSlashes(StripSlashes(endpoint)) == StripSlashes(endpoint)
  {
    var r := StripSlashes(endpoint);
    StrippedIsFixed(r);
  }

  lemma StrippedIsFixed(r: string)
    requires r == [] || (r[0] != '/' && r[|r| - 1] != '/')
    ensures StripSlashes(r) == r
  {
    assert SlashRunEnd(r, 0) == 0 && r[0..] == r;
    assert DropLeadingSlashes(r) == r;
    assert SlashRunStart(r, |r|) == |r| && r[..|r|] == r;
    assert DropTrailingSlashes(r) == r;
  }

  const QueueBase: string := "https://" + "queue" + ".fal.run/"
  const SyncBase: string := "https://" + "fal" + ".fal.run/"

  /** The submit URL: the queue host for a video endpoint, the synchronous
      host otherwise, followed by the stripped endpoint. */
  function FalUrl(endpoint: string): (r: string)
    ensures IsVideoEndpoint(endpoint) ==> r == QueueBase + StripSlashes(endpoint)
    ensures !IsVideoEndpoint(endpoint) ==> r == SyncBase + StripSlashes(endpoint)
  {
    "https://" + Subdomain(endpoint) + ".fal.run/" + StripSlashes(endpoint)
  }

  /** One `fetch`: it threw (a network failure), or it answered. */
  datatype Fetch = Threw(message: string) | Responded(status: nat, ok: bool, body: string)

  const ConnectionFailedPrefix: string := "Fal.ai connection failed: "

  /** How the submit ended and how many POSTs it made. */
  datatype SubmitOutcome = SubmitOutcome(posts: nat, result: Result<string>)

  function HttpErrorMessage(status: nat, text: string): string {
    "Fal.ai Error (" + NatToString(status) + "): " + text
  }

  /** The submit: a POST, repeated once (and only once) when the first one
      throws. A second throw is reported as a connection failure; an answer
      that is not ok as an HTTP error carrying its status and text. */
  function Submit(first: Fetch, retry: Fetch): (r: SubmitOutcome)
    ensures 1 <= r.posts <= 2
    ensures r.posts == 2 <==> first.Threw?
    ensures first.Responded? ==> (r.result.Ok? <==> first.ok)
    ensures first.Threw? ==> (r.result.Ok? <==> retry.Responded? && retry.ok)
    ensures r.result.Ok? ==> r.result.value == (if first.Threw? then retry.body else first.body)
    ensures first.Threw? && retry.Threw? ==> r.result == Err(ConnectionFailedPrefix + retry.message)
  {
    var used := if first.Threw? then retry else first;
    var posts := if first.Threw? then 2 else 1;
    match used
    case Threw(m) => SubmitOutcome(posts, Err(ConnectionFailedPrefix + m))
    case Responded(status, ok, body) =>
      if ok then SubmitOutcome(posts, Ok(body))
      else SubmitOutcome(posts, Err(HttpErrorMessage(status, body)))
  }

  /** A refused submit names its HTTP status, so the quota status 429 is
      visible to the fallback classifiers that search for "429". */
  lemma RefusedSubmitNamesStatus(first: Fetch, retry: Fetch)
    requires first.Responded? && !first.ok
    ensures Submit(first, retry).result.Err?
    ensures Contains(Submit(first, retry).result.message, NatToString(first.status))
    ensures first.status == 429 ==> Contains(Submit(first, retry).result.message, "429")
  {
    var m := Submit(first, retry).result.message;
    var s := NatToString(first.status);
    assert m == "Fal.ai Error (" + s + "): " + first.body;
    assert m[14..14 + |s|] == s;
    ContainsAt(m, s, 14);
    if first.status == 429 {
      NatToString429();
    }
  }

  // ---------------------------------------------------------------------
  // Queue polling

  const TimeoutMs: nat := 1200000
  const InitialWaitMs: nat := 1000
  const MaxNetworkErrors: nat := 30
  const TimeoutMessage: string := "Fal.ai processing timed out."
  const ConnectionLostMessage: string := "Fal.ai polling connection lost (Too many network errors)."
  const UnknownError: string := "Unknown error"
  const StatusErrorPrefix: string := "Fal.ai Status Error: "
  const ProcessingFailedPrefix: string := "Fal.ai processing failed: "

  /** The sleep before each status request: 2 s, one more second per
      consecutive network error, never more than 10 s. */
  function PollInterval(errors: nat): (ms: nat)
    ensures 2000 <= ms <= 10000
    ensures ms == 2000 + 1000 * errors || (ms == 10000 && errors >= 8)
  {
    if 2000 + 1000 * errors < 10000 then 2000 + 1000 * errors else 10000
  }

  /** The back-off never shrinks as errors accumulate. */
  lemma PollIntervalMonotone(a: nat, b: nat)
    requires a <= b
    ensures PollInterval(a) <= PollInterval(b)
  {
  }

  /** The status payload: the job finished (with its result), failed (with
      an optional error text), or is still queued or running. */
  datatype StatusBody = Completed(result: string) | Failed(error: Option<string>) | Pending

  /** What one status request observed. */
  datatype PollEvent = FetchThrew | StatusResponse(status: nat, ok: bool, body: StatusBody)

  /** Time since the start of polling, and the consecutive network errors. */
  datatype PollState = PollState(elapsed: nat, errors: nat)

  /** Why polling stopped. */
  datatype PollEnd = Delivered | TimedOut | ConnectionLost | StatusError | ProcessingFailed

  datatype Step = Continue(next: PollState) | Finish(reason: PollEnd, result: Result<string>)

  /** Gateway and not-found answers are waited out. */
  predicate IsRetryStatus(status: nat) {
    status == 502 || status == 503 || status == 504 || status == 404
  }

  function FailureText(error: Option<string>): (t: string)
    ensures t != []
  {
    if error.Some? && error.value != [] then error.value else UnknownError
  }

  /** One iteration of the loop body: sleep, then act on what the status
      request returned. A thrown fetch adds one error and gives up at 30; any
      answer resets the count. */
  function PollStep(s: PollState, ev: PollEvent): (r: Step)
    ensures r.Continue? ==> r.next.elapsed == s.elapsed + PollInterval(s.errors)
    ensures r.Continue? ==> r.next.errors == (if ev.FetchThrew? then s.errors + 1 else 0)
    ensures r.Continue? ==> r.next.errors < MaxNetworkErrors
    ensures ev.FetchThrew? ==> (r.Finish? <==> s.errors + 1 >= MaxNetworkErrors)
    ensures ev.StatusResponse? && !ev.ok ==> (r.Continue? <==> IsRetryStatus(ev.status))
    ensures ev.StatusResponse? && ev.ok ==> (r.Continue? <==> ev.body.Pending?)
    ensures r.Finish? ==> (r.result.Ok? <==> r.reason == Delivered)
    ensures r.Finish? && r.reason == Delivered <==> ev.StatusResponse? && ev.ok && ev.body.Completed?
    ensures r.Finish? && r.reason == Delivered ==> r.result.value == ev.body.result
    ensures r.Finish? && r.reason == ConnectionLost <==> ev.FetchThrew? && s.errors + 1 >= MaxNetworkErrors
    ensures r.Finish? && r.reason == ConnectionLost ==> r.result == Err(ConnectionLostMessage)
    ensures r.Finish? && r.reason == StatusError <==> ev.StatusResponse? && !ev.ok && !IsRetryStatus(ev.status)
    ensures r.Finish? && r.reason == StatusError ==> r.result == Err(StatusErrorPrefix + NatToString(ev.status))
    ensures r.Finish? && r.reason == ProcessingFailed <==> ev.StatusResponse? && ev.ok && ev.body.Failed?
    ensures r.Finish? && r.reason == ProcessingFailed ==> r.result == Err(ProcessingFailedPrefix + FailureText(ev.body.error))
    ensures r.Finish? ==> r.reason != TimedOut
  {
    var elapsed := s.elapsed + PollInterval(s.errors);
    match ev
    case FetchThrew =>
      if s.errors + 1 >= MaxNetworkErrors then Finish(ConnectionLost, Err(ConnectionLostMessage))
      else Continue(PollState(elapsed, s.errors + 1))
    case StatusResponse(status, ok, body) =>
      if !ok then
        if IsRetryStatus(status) then Continue(PollState(elapsed, 0))
        else Finish(StatusError, Err(StatusErrorPrefix + NatToString(status)))
      else
        match body
        case Completed(result) => Finish(Delivered, Ok(result))
        case Failed(error) => Finish(ProcessingFailed, Err(ProcessingFailedPrefix + FailureText(error)))
        case Pending => Continue(PollState(elapsed, 0))
  }

  const InitialPollState: PollState := PollState(InitialWaitMs, 0)

  /** The loop's state before its n-th status request, folding `PollStep`
      over `ev(0)`, ..., `ev(n - 1)`; meaningful while every one of those
      steps continued (see `Continues`). */
  function StateAfter(ev: nat -> PollEvent, n: nat): PollState {
    if n == 0 then InitialPollState
    else
      var s := StateAfter(ev, n - 1);
      match PollStep(s, ev(n - 1))
      case Continue(next) => next
      case Finish(_, _) => s
  }

  /** The first n status requests were each made before the deadline and
      each answered with something the loop waits out. */
  predicate Continues(ev: nat -> PollEvent, n: nat) {
    forall k {:trigger StateAfter(ev, k)} :: 0 <= k < n ==>
      StateAfter(ev, k).elapsed < TimeoutMs && PollStep(StateAfter(ev, k), ev(k)).Continue?
  }

  /** One more waited-out request extends the run. */
  lemma ContinuesStep(ev: nat -> PollEvent, n: nat)
    requires Continues(ev, n) && StateAfter(ev, n).elapsed < TimeoutMs
    requires PollStep(StateAfter(ev, n), ev(n)).Continue?
    ensures Continues(ev, n + 1)
    ensures StateAfter(ev, n + 1) == PollStep(StateAfter(ev, n), ev(n)).next
  {
  }

  /** How the loop ends on `ev`: either every request before the deadline
      was waited out and the deadline passed, or the `polls`-th request is
      the first whose answer is terminal, and the loop ends with exactly
      what `PollStep` makes of it. */
  predicate PollSettles(ev: nat -> PollEvent, polls: nat, reason: PollEnd, result: Result<string>) {
    if reason == TimedOut then
      Continues(ev, polls) && StateAfter(ev, polls).elapsed >= TimeoutMs && result == Err(TimeoutMessage)
    else
      polls >= 1 && Continues(ev, polls - 1) && StateAfter(ev, polls - 1).elapsed < TimeoutMs
      && PollStep(StateAfter(ev, polls - 1), ev(polls - 1)) == Finish(reason, result)
  }

  /** What a settled run ends with: at most 600 status requests (every
      sleep is at least 2 s and the deadline is 20 minutes after a 1 s
      initial wait); a timeout only after at least 120 of them; a lost
      connection only after 30 thrown fetches in a row; a delivery of
      exactly what the last, completed, status answer carried; a refused
      status named by its HTTP status and a failed job by its error text. */
  predicate PollPromises(ev: nat -> PollEvent, polls: nat, reason: PollEnd, result: Result<string>) {
    && 1 <= polls <= 600
    && (result.Ok? <==> reason == Delivered)
    && (reason == Delivered ==>
      ev(polls - 1).StatusResponse? && ev(polls - 1).ok
      && ev(polls - 1).body == Completed(result.value))
    && (reason == TimedOut ==> polls >= 120 && result == Err(TimeoutMessage))
    && (reason == ConnectionLost ==>
      polls >= MaxNetworkErrors && result == Err(ConnectionLostMessage)
      && forall k :: polls - MaxNetworkErrors <= k < polls ==> ev(k) == FetchThrew)
    && (reason == StatusError ==>
      ev(polls - 1).StatusResponse? && !ev(polls - 1).ok && !IsRetryStatus(ev(polls - 1).status)
      && result == Err(StatusErrorPrefix + NatToString(ev(polls - 1).status)))
    && (reason == ProcessingFailed ==>
      ev(polls - 1).StatusResponse? && ev(polls - 1).ok && ev(polls - 1).body.Failed?
      && result == Err(ProcessingFailedPrefix + FailureText(ev(polls - 1).body.error)))
  }

  /** The polling loop, fed the status request outcomes `ev(0)`, `ev(1)`, ...
      in order. It keeps polling through every answer it waits out and
      stops at the first terminal one, or at the deadline. It makes at most
      600 status requests (every sleep is at least 2 s and the deadline is
      20 minutes after a 1 s initial wait); it times out only after at
      least 120 of them; it loses the connection only after 30 thrown
      fetches in a row; it delivers exactly what the last, completed, status
      answer carried; a refused status names its HTTP status and a failed
      job its error text. */
  method Poll(ev: nat -> PollEvent) returns (polls: nat, reason: PollEnd, result: Result<string>)
    ensures PollSettles(ev, polls, reason, result)
    ensures PollPromises(ev, polls, reason, result)
  {
    var s := InitialPollState;
    polls := 0;
    while s.elapsed < TimeoutMs
      invariant s == StateAfter(ev, polls) && Continues(ev, polls)
      decreases TimeoutMs - s.elapsed
    {
      var step := PollStep(s, ev(polls));
      if step.Finish? {
        assert PollSettles(ev, polls + 1, step.reason, step.result);
        SettlesFacts(ev, polls + 1, step.reason, step.result);
        polls, reason, result := polls + 1, step.reason, step.result;
        return;
      }
      ContinuesStep(ev, polls);
      polls := polls + 1;
      s := step.next;
    }
    reason, result := TimedOut, Err(TimeoutMessage);
    SettlesFacts(ev, polls, reason, result);
  }

  /** The last request of a run of waited-out requests, read off the run. */
  lemma ContinuesLast(ev: nat -> PollEvent, n: nat)
    requires n > 0 && Continues(ev, n)
    ensures Continues(ev, n - 1) && StateAfter(ev, n - 1).elapsed < TimeoutMs
    ensures PollStep(StateAfter(ev, n - 1), ev(n - 1)).Continue?
    ensures StateAfter(ev, n) == PollStep(StateAfter(ev, n - 1), ev(n - 1)).next
  {
  }

  /** Along a run of waited-out requests the clock advances by 2 to 10 s
      per request. */
  lemma {:induction false} RunClock(ev: nat -> PollEvent, n: nat)
    requires Continues(ev, n)
    ensures InitialWaitMs + 2000 * n <= StateAfter(ev, n).elapsed <= InitialWaitMs + 10000 * n
  {
    if n > 0 {
      ContinuesLast(ev, n);
      RunClock(ev, n - 1);
    }
  }

  /** Along a run of waited-out requests the error count is the number of
      thrown fetches that close the run, and it never reaches 30. */
  lemma {:induction false} RunErrors(ev: nat -> PollEvent, n: nat)
    requires Continues(ev, n)
    ensures StateAfter(ev, n).errors <= n && StateAfter(ev, n).errors < MaxNetworkErrors
    ensures forall k :: n - StateAfter(ev, n).errors <= k < n ==> ev(k) == FetchThrew
  {
    if n > 0 {
      ContinuesLast(ev, n);
      RunErrors(ev, n - 1);
    }
  }

  /** Everything the loop promises follows from how it settles. */
  lemma SettlesFacts(ev: nat -> PollEvent, polls: nat, reason: PollEnd, result: Result<string>)
    requires PollSettles(ev, polls, reason, result)
    ensures PollPromises(ev, polls, reason, result)
  {
    if reason == TimedOut {
      TimedOutPromises(ev, polls, result);
    } else {
      FinishPromises(ev, polls, reason, result);
    }
  }

  /** A run that passes the deadline made between 120 and 600 requests. */
  lemma TimedOutPromises(ev: nat -> PollEvent, polls: nat, result: Result<string>)
    requires PollSettles(ev, polls, TimedOut, result)
    ensures PollPromises(ev, polls, TimedOut, result)
  {
    RunClock(ev, polls);
    assert polls >= 120;
    ContinuesLast(ev, polls);
    RunClock(ev, polls - 1);
  }

  /** A run that stops at a terminal answer made at most 600 requests and
      ends with what that answer says. */
  lemma FinishPromises(ev: nat -> PollEvent, polls: nat, reason: PollEnd, result: Result<string>)
    requires reason != TimedOut && PollSettles(ev, polls, reason, result)
    ensures PollPromises(ev, polls, reason, result)
  {
    RunClock(ev, polls - 1);
    SettledFinish(ev, polls, reason, result);
    if reason == ConnectionLost {
      ConnectionLostRun(ev, polls, result);
    }
  }

  /** A lost connection ends a run of 30 thrown fetches. */
  lemma ConnectionLostRun(ev: nat -> PollEvent, polls: nat, result: Result<string>)
    requires PollSettles(ev, polls, ConnectionLost, result)
    ensures polls >= MaxNetworkErrors
    ensures forall k :: polls - MaxNetworkErrors <= k < polls ==> ev(k) == FetchThrew
  {
    RunErrors(ev, polls - 1);
    var s := StateAfter(ev, polls - 1);
    assert ev(polls - 1) == FetchThrew && s.errors == MaxNetworkErrors - 1;
    forall k | polls - MaxNetworkErrors <= k < polls
      ensures ev(k) == FetchThrew
    {
      if k < polls - 1 {
        assert polls - 1 - s.errors <= k;
      }
    }
  }

  /** What a run that stops at a terminal answer ends with, read off the
      last answer. */
  lemma SettledFinish(ev: nat -> PollEvent, polls: nat, reason: PollEnd, result: Result<string>)
    requires reason != TimedOut && PollSettles(ev, polls, reason, result)
    ensures result.Ok? <==> reason == Delivered
    ensures reason == Delivered ==>
      ev(polls - 1).StatusResponse? && ev(polls - 1).ok
      && ev(polls - 1).body == Completed(result.value)
    ensures reason == ConnectionLost ==> ev(polls - 1) == FetchThrew && result == Err(ConnectionLostMessage)
    ensures reason == StatusError ==>
      ev(polls - 1).StatusResponse? && !ev(polls - 1).ok && !IsRetryStatus(ev(polls - 1).status)
      && result == Err(StatusErrorPrefix + NatToString(ev(polls - 1).status))
    ensures reason == ProcessingFailed ==>
      ev(polls - 1).StatusResponse? && ev(polls - 1).ok && ev(polls - 1).body.Failed?
      && result == Err(ProcessingFailedPrefix + FailureText(ev(polls - 1).body.error))
  {
    var e := ev(polls - 1);
    var step := PollStep(StateAfter(ev, polls - 1), e);
    assert step == Finish(reason, result);
  }

  /** The index of the loop's last look at `ev`: the terminal request, or
      the first check of the deadline that failed. */
  function EndIndex(polls: nat, reason: PollEnd): int {
    if reason == TimedOut then polls else polls - 1
  }

  /** The loop's outcome is a function of the events: two runs on the same
      answers stop at the same request with the same result. */
  lemma PollSettlesUnique(ev: nat -> PollEvent, p1: nat, r1: PollEnd, x1: Result<string>,
                          p2: nat, r2: PollEnd, x2: Result<string>)
    requires PollSettles(ev, p1, r1, x1) && PollSettles(ev, p2, r2, x2)
    ensures p1 == p2 && r1 == r2 && x1 == x2
  {
    NotPast(ev, p1, r1, x1, p2, r2, x2);
    NotPast(ev, p2, r2, x2, p1, r1, x1);
  }

  /** No settled run can have waited out the request another settled run
      ended on. */
  lemma NotPast(ev: nat -> PollEvent, p1: nat, r1: PollEnd, x1: Result<string>,
                p2: nat, r2: PollEnd, x2: Result<string>)
    requires PollSettles(ev, p1, r1, x1) && PollSettles(ev, p2, r2, x2)
    ensures EndIndex(p2, r2) <= EndIndex(p1, r1)
  {
  }

  /** A job that the first status answer reports as failed ends the loop
      after that one request, with the job's error text. */
  lemma FailedFirstAnswerStops(ev: nat -> PollEvent, polls: nat, reason: PollEnd, result: Result<string>)
    requires ev(0).StatusResponse? && ev(0).ok && ev(0).body.Failed?
    requires PollSettles(ev, polls, reason, result)
    ensures polls == 1 && reason == ProcessingFailed
    ensures result == Err(ProcessingFailedPrefix + FailureText(ev(0).body.error))
  {
  }

  /** A job that the first status answer reports as completed is delivered
      after that one request, with what the answer carried. */
  lemma CompletedFirstAnswerDelivers(ev: nat -> PollEvent, polls: nat, reason: PollEnd, result: Result<string>)
    requires ev(0).StatusResponse? && ev(0).ok && ev(0).body.Completed?
    requires PollSettles(ev, polls, reason, result)
    ensures polls == 1 && reason == Delivered && result == Ok(ev(0).body.result)
  {
  }

  /** What the submit returned for a queued job. */
  datatype QueueTicket = QueueTicket(requestId: Option<string>, statusUrl: Option<string>)

  /** The status URL: the one the API gave, otherwise one built from the
      stripped endpoint and the request id (`undefined` when absent). */
  function StatusUrl(endpoint: string, ticket: QueueTicket): (r: string)
    ensures ticket.statusUrl.Some? && ticket.statusUrl.value != [] ==> r == ticket.statusUrl.value
    ensures (ticket.statusUrl.None? || ticket.statusUrl.value == []) && IsVideoEndpoint(endpoint) ==>
              r == FalUrl(endpoint) + "/requests/" + ticket.requestId.GetOr("undefined") + "/status"
  {
    if ticket.statusUrl.Some? && ticket.statusUrl.value != [] then ticket.statusUrl.value
    else
      var id := if ticket.requestId.Some? then ticket.requestId.value else "undefined";
      QueueBase + StripSlashes(endpoint) + "/requests/" + id + "/status"
  }

  /** The submit answer names a queued job: a request id or a status URL. */
  predicate NamesJob(ticket: QueueTicket) {
    (ticket.requestId.Some? && ticket.requestId.value != [])
    || (ticket.statusUrl.Some? && ticket.statusUrl.value != [])
  }

  /** `callFalAI` as a whole: submit, then, for a video endpoint whose
      answer names a queued job, poll. Returns how many POSTs and status
      requests were made, and why polling stopped (`None` when there was
      no polling). A synchronous endpoint, a refused submit and a queued
      answer that names no job all return what the submit gave; a queued
      job returns exactly the poll's outcome on `ev`. */
  method CallFal(endpoint: string, first: Fetch, retry: Fetch, ticket: QueueTicket, ev: nat -> PollEvent)
    returns (posts: nat, polls: nat, stop: Option<PollEnd>, result: Result<string>)
    ensures 1 <= posts <= 2 && polls <= 600
    ensures stop.None? <==> polls == 0
    ensures !IsVideoEndpoint(endpoint) ==> polls == 0 && result == Submit(first, retry).result
    ensures Submit(first, retry).result.Err? ==> polls == 0 && result == Submit(first, retry).result
    ensures !NamesJob(ticket) ==> polls == 0 && result == Submit(first, retry).result
    ensures IsVideoEndpoint(endpoint) && Submit(first, retry).result.Ok? && NamesJob(ticket) ==>
              stop.Some? && PollSettles(ev, polls, stop.value, result)
  {
    var submitted := Submit(first, retry);
    posts := submitted.posts;
    if submitted.result.Err? || !IsVideoEndpoint(endpoint) || !NamesJob(ticket) {
      return posts, 0, None, submitted.result;
    }
    var reason;
    polls, reason, result := Poll(ev);
    stop := Some(reason);
  }
}
