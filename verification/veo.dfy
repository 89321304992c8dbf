/** The Veo branch of `generateTransitionVideo` (services/geminiService.ts):
    the bounded status poll with its progress estimate, the download of the
    finished video, and the hand-over to the Fal.ai fallback. The remote
    operation is an input: `ev(0)` is what starting the synthesis returned
    and `ev(k)` what the k-th status poll returned. */
module Veo {

  import opened Wrappers
  import opened Strings
  import opened Types
  import Gemini

  /** One look at the long-running operation. */
  datatype OperationStatus =
    | Running
    | Finished(link: Option<string>)   // done, with the first video's uri if any
    | Threw(message: string)           // the call raised an error

  const StartProgress: real := 5.0
  const ProgressCeiling: real := 99.0
  const ProgressStep: real := 0.4
  /** `attempts++ > 250`: the poll that would be the 252nd is refused. */
  const AttemptLimit: nat := 250
  /** What the bar shows once the Fal.ai fallback takes over. */
  const FallbackProgress: real := 15.0

  /** `Math.min(99, 5 + attempts * 0.4)`, on exact reals. The ceiling is
      reached at attempt 235 and never before. */
  function Progress(attempts: nat): (p: real)
    ensures StartProgress <= p <= ProgressCeiling
    ensures p == ProgressCeiling <==> attempts >= 235
    ensures p < ProgressCeiling ==> p == StartProgress + ProgressStep * attempts as real
  {
    var estimate := StartProgress + attempts as real * ProgressStep;
    if estimate < ProgressCeiling then estimate else ProgressCeiling
  }

  /** More polls never show less progress. */
  lemma ProgressMonotone(j: nat, k: nat)
    requires j <= k
    ensures Progress(j) <= Progress(k)
  {
  }

  /** The reports of a run with `polls` status polls: the initial 5, then
      one report per poll. */
  function Trace(polls: nat): (r: seq<real>)
    ensures |r| == polls + 1
    ensures forall k :: 0 <= k <= polls ==> r[k] == Progress(k)
  {
    if polls == 0 then [StartProgress] else Trace(polls - 1) + [Progress(polls)]
  }

  predicate NonDecreasing(s: seq<real>) {
    forall j, k :: 0 <= j <= k < |s| ==> s[j] <= s[k]
  }

  /** The poll's own reports start at 5, never go down and never pass 99. */
  lemma TraceShape(polls: nat)
    ensures Trace(polls)[0] == StartProgress
    ensures NonDecreasing(Trace(polls))
    ensures forall k :: 0 <= k < |Trace(polls)| ==> Trace(polls)[k] <= ProgressCeiling
  {
    var t := Trace(polls);
    forall j, k | 0 <= j <= k < |t| ensures t[j] <= t[k] {
      ProgressMonotone(j, k);
    }
  }

  /** The status poll of lines 464-470: poll while the operation runs, one
      progress report before each poll, and give up with "Synthesis Timed
      Out" instead of a 252nd poll. An error raised by the start or by a
      poll ends it with that error. */
  method PollOperation(ev: nat -> OperationStatus) returns (polls: nat, reports: seq<real>, result: Result<Option<string>>)
    ensures polls <= AttemptLimit + 1
    ensures reports == Trace(polls)
    ensures reports[0] == StartProgress && NonDecreasing(reports)
    ensures forall k :: 0 <= k < |reports| ==> reports[k] <= ProgressCeiling
    ensures forall k :: 0 <= k < polls ==> ev(k).Running?
    ensures result.Ok? <==> ev(polls).Finished?
    ensures ev(polls).Finished? ==> result == Ok(ev(polls).link)
    ensures ev(polls).Threw? ==> result == Err(ev(polls).message)
    ensures ev(polls).Running? ==> polls == AttemptLimit + 1 && result == Err(Gemini.VeoTimeoutMessage)
  {
    polls := 0;
    reports := [StartProgress];
    var status := ev(0);
    while status.Running?
      invariant polls <= AttemptLimit + 1
      invariant status == ev(polls) && reports == Trace(polls)
      invariant forall k :: 0 <= k < polls ==> ev(k).Running?
      decreases AttemptLimit + 1 - polls
    {
      if polls > AttemptLimit {
        result := Err(Gemini.VeoTimeoutMessage);
        TraceShape(polls);
        return;
      }
      polls := polls + 1;
      reports := reports + [Progress(polls)];
      status := ev(polls);
    }
    TraceShape(polls);
    result := if status.Finished? then Ok(status.link) else Err(status.message);
  }

  /** Lines 474-490: no link is an error; otherwise the video is fetched with
      the key appended, and when that download fails the keyed link itself
      is returned. `blob` is the object URL of a successful download. */
  function Deliver(link: Option<string>, key: string, blob: Option<string>): (r: Result<string>)
    requires '?' !in key
    ensures r.Err? <==> !Truthy(link)
    ensures r.Err? ==> r.message == Gemini.NoResultMessage
    ensures r.Ok? && blob.None? ==> StartsWith(r.value, link.value) && CountChar(r.value, '?') <= CountChar(link.value, '?') + 1
    ensures r.Ok? && blob.Some? ==> r.value == blob.value
  {
    if !Truthy(link) then Err(Gemini.NoResultMessage)
    else if blob.Some? then Ok(blob.value)
    else
      var u := Gemini.DownloadUrl(link.value, key);
      assert '?' in link.value ==> CountChar(link.value, '?') > 0;
      Ok(u)
  }

  /** What the Veo attempt itself ended with, before the catch block. */
  function Attempt(last: OperationStatus, key: string, blob: Option<string>): (r: Result<string>)
    requires '?' !in key
    ensures r.Ok? <==> last.Finished? && Truthy(last.link)
    ensures last.Running? ==> r == Err(Gemini.VeoTimeoutMessage)
    ensures last.Threw? ==> r == Err(last.message)
    ensures last.Finished? ==> r == Deliver(last.link, key, blob)
  {
    match last
    case Running => Err(Gemini.VeoTimeoutMessage)
    case Threw(m) => Err(m)
    case Finished(link) => Deliver(link, key, blob)
  }

  /** The whole report sequence: the poll's reports, then 15 when the
      fallback starts. */
  function VideoTrace(polls: nat, fellBack: bool): (r: seq<real>)
    ensures |r| == polls + 1 + (if fellBack then 1 else 0)
    ensures r[..polls + 1] == Trace(polls)
    ensures fellBack ==> r[polls + 1] == FallbackProgress
  {
    Trace(polls) + (if fellBack then [FallbackProgress] else [])
  }

  /** `generateTransitionVideo` past the image resizing: the Veo attempt,
      and on a classified failure the Fal.ai fallback. A timeout and a
      missing link are raised as they are: neither message is classified. */
  method GenerateTransitionVideo(ev: nat -> OperationStatus, key: string, blob: Option<string>,
                                 fal: Result<Gemini.FalVideoResponse>)
    returns (polls: nat, fellBack: bool, reports: seq<real>, result: Result<string>)
    requires '?' !in key
    ensures polls <= AttemptLimit + 1 && reports == VideoTrace(polls, fellBack)
    ensures forall k :: 0 <= k < polls ==> ev(k).Running?
    ensures ev(polls).Running? ==> !fellBack && result == Err(Gemini.VeoTimeoutMessage)
    ensures ev(polls).Finished? ==> !fellBack
    ensures ev(polls).Finished? && Truthy(ev(polls).link) ==> result.Ok?
    ensures ev(polls).Finished? ==> result == Deliver(ev(polls).link, key, blob)
    ensures ev(polls).Finished? && !Truthy(ev(polls).link) ==> result == Err(Gemini.NoResultMessage)
    ensures ev(polls).Threw? ==> (fellBack <==> Gemini.ShouldFallbackVideo(ev(polls).message))
    ensures ev(polls).Threw? ==> result == Gemini.VideoFallback(ev(polls).message, fal)
  {
    var r;
    polls, reports, r := PollOperation(ev);
    var attempt := Attempt(ev(polls), key, blob);
    if attempt.Ok? {
      fellBack := false;
      result := attempt;
    } else {
      if ev(polls).Running? {
        Gemini.VeoTimeoutNotRescued();
      } else if ev(polls).Finished? {
        Gemini.NoResultNotRescued();
      }
      fellBack := Gemini.ShouldFallbackVideo(attempt.message);
      result := Gemini.VideoFallback(attempt.message, fal);
    }
    if fellBack {
      reports := reports + [FallbackProgress];
    }
  }

  /** The bar only moves forward across the fallback when the fallback comes
      within the first 25 polls: later, 15 is a step back. */
  lemma {:induction false} FallbackRewindsProgress(polls: nat, fellBack: bool)
    ensures NonDecreasing(VideoTrace(polls, fellBack)) <==> !fellBack || polls <= 25
  {
    var r := VideoTrace(polls, fellBack);
    TraceShape(polls);
    if !fellBack {
      assert r == Trace(polls);
    } else if polls <= 25 {
      forall j, k | 0 <= j <= k < |r| ensures r[j] <= r[k] {
        if k == polls + 1 {
          if j < k {
            assert r[j] == Trace(polls)[j] == Progress(j);
            ProgressMonotone(j, polls);
          }
        } else {
          assert r[j] == Trace(polls)[j] && r[k] == Trace(polls)[k];
        }
      }
    } else {
      assert r[polls] == Trace(polls)[polls] == Progress(polls);
      assert Progress(polls) > FallbackProgress;
      assert r[polls] > r[polls + 1];
    }
  }
}
