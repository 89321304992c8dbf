/** The video lifecycle of one frame (`generateFrameVideo`,
    cineflow/App.tsx:239-287) and of one transition
    (`generateSingleTransition`, cineflow/App.tsx:289-328).

    Both follow the same small state machine over four fields of the unit:
    status, progress, url and prompt. A unit that is already completed with
    a url answers with it; a unit whose (start) master image is missing or
    not completed is skipped; otherwise it goes to generating with progress 0,
    gets a director prompt when its own is empty or the placeholder, reports
    progress only while still generating, and ends completed with the url and
    progress 100, or in error. The director's and the synthesis engine's
    outcomes are parameters. */
module Motion {

  import opened Wrappers
  import opened Types

  /** The four fields the lifecycle reads and writes. */
  datatype MotionState = MotionState(
    status: Option<Status>,
    progress: Option<real>,
    url: Option<string>,
    prompt: Option<string>)

  /** A frame's video fields. */
  function FrameMotion(f: FrameSpec): MotionState {
    MotionState(f.videoStatus, f.videoProgress, f.videoUrl, f.videoPrompt)
  }

  function WithFrameMotion(f: FrameSpec, m: MotionState): FrameSpec {
    f.(videoStatus := m.status, videoProgress := m.progress, videoUrl := m.url, videoPrompt := m.prompt)
  }

  /** Writing a frame's video fields and reading them back gives what was
      written; writing back what was read changes nothing. */
  lemma FrameMotionRoundTrip(f: FrameSpec, m: MotionState)
    ensures FrameMotion(WithFrameMotion(f, m)) == m
    ensures WithFrameMotion(f, FrameMotion(f)) == f
  {
  }

  /** A transition's video fields (its status is never absent). */
  function TransitionMotion(t: TransitionSpec): (m: MotionState)
    ensures m.status.Some?
  {
    MotionState(Some(t.status), t.progress, t.videoUrl, t.directorPrompt)
  }

  function WithTransitionMotion(t: TransitionSpec, m: MotionState): TransitionSpec
    requires m.status.Some?
  {
    t.(status := m.status.value, progress := m.progress, videoUrl := m.url, directorPrompt := m.prompt)
  }

  lemma TransitionMotionRoundTrip(t: TransitionSpec, m: MotionState)
    requires m.status.Some?
    ensures TransitionMotion(WithTransitionMotion(t, m)) == m
    ensures WithTransitionMotion(t, TransitionMotion(t)) == t
  {
  }

  /** The first write: generating, progress 0. */
  function Start(m: MotionState): (r: MotionState)
    ensures r.status == Some(Generating) && r.progress == Some(0.0)
    ensures r.url == m.url && r.prompt == m.prompt
  {
    m.(status := Some(Generating), progress := Some(0.0))
  }

  /** The prompt write once the director has answered. */
  function SetPrompt(m: MotionState, p: string): (r: MotionState)
    ensures r.prompt == Some(p) && r.(prompt := m.prompt) == m
  {
    m.(prompt := Some(p))
  }

  /** A progress report: applied only while the unit is still generating. */
  function Report(m: MotionState, p: real): (r: MotionState)
    ensures m.status == Some(Generating) ==> r == m.(progress := Some(p))
    ensures m.status != Some(Generating) ==> r == m
  {
    if m.status == Some(Generating) then m.(progress := Some(p)) else m
  }

  /** The reports in order. */
  function Reports(m: MotionState, ps: seq<real>): MotionState
    decreases |ps|
  {
    if |ps| == 0 then m else Reports(Report(m, ps[0]), ps[1..])
  }

  /** Reports never change anything but the progress, and once the unit has
      left `generating` (or never entered it) they change nothing at all;
      while it is generating the last report wins. */
  lemma {:induction false} ReportsEffect(m: MotionState, ps: seq<real>)
    ensures Reports(m, ps).(progress := m.progress) == m
    ensures m.status != Some(Generating) ==> Reports(m, ps) == m
    ensures m.status == Some(Generating) && |ps| > 0 ==> Reports(m, ps).progress == Some(ps[|ps| - 1])
    decreases |ps|
  {
    if |ps| > 0 {
      ReportsEffect(Report(m, ps[0]), ps[1..]);
      if |ps| > 1 {
        assert ps[1..][|ps[1..]| - 1] == ps[|ps| - 1];
      }
    }
  }

  /** The success write. */
  function Succeed(m: MotionState, url: string): (r: MotionState)
    ensures r.status == Some(Completed) && r.url == Some(url) && r.progress == Some(100.0)
    ensures r.prompt == m.prompt
  {
    m.(url := Some(url), status := Some(Completed), progress := Some(100.0))
  }

  /** The failure write: only the status changes. */
  function Fail(m: MotionState): (r: MotionState)
    ensures r == m.(status := Some(Error))
  {
    m.(status := Some(Error))
  }

  const FrameDefaultPrompt: string := "Cinematic motion..."
  const TransitionDefaultPrompt: string := "Cinematic transition..."

  /** The prompt is replaced when it is missing, empty or the placeholder. */
  predicate NeedsPrompt(prompt: Option<string>, placeholder: string) {
    !Truthy(prompt) || prompt == Some(placeholder)
  }

  /** What the synthesis engine is asked for. A missing video model falls
      back to the parameter default, the fast Veo model. */
  datatype VideoRequest = VideoRequest(
    prompt: string,
    startImage: string,
    endImage: Option<string>,
    model: VideoModel,
    kind: TransitionType)

  /** What one call does: the unit's final fields, what it returns or
      throws, and the request sent to the synthesis engine if it got that
      far. */
  datatype MotionRun = MotionRun(state: MotionState, result: Result<Option<string>>, request: Option<VideoRequest>)

  /** The body after the guards: start, prompt, the end-image read, reports,
      settlement. `endImage` is the bridge's end image url, `None` when the
      end frame has no master image (reading its url throws). */
  function Synthesize(m: MotionState, placeholder: string, director: Result<string>, start: string,
                      endImage: Option<string>, isBridge: bool, model: VideoModel, kind: TransitionType,
                      reports: seq<real>, video: Result<string>): (run: MotionRun)
    ensures run.state.status == Some(Completed) || run.state.status == Some(Error)
    ensures run.result.Ok? ==> video.Ok? && run.result.value == Some(video.value) && run.request.Some?
    ensures run.request.Some? ==> run.request.value.startImage == start && run.request.value.kind == kind
                                  && run.request.value.model == model
  {
    var m1 := Start(m);
    var prompted: Result<(MotionState, string)> :=
      if NeedsPrompt(m.prompt, placeholder) then
        match director
        case Err(e) => Err(e)
        case Ok(p) => Ok((SetPrompt(m1, p), p))
      else Ok((m1, m.prompt.value));
    match prompted
    case Err(e) => MotionRun(Fail(m1), Err(e), None)
    case Ok((m2, prompt)) =>
      if isBridge && endImage.None? then MotionRun(Fail(m2), Err(TypeErrorMessage), None)
      else
        var req := VideoRequest(prompt, start, if isBridge then endImage else None, model, kind);
        var m3 := Reports(m2, reports);
        match video
        case Ok(url) => MotionRun(Succeed(m3, url), Ok(Some(url)), Some(req))
        case Err(e) => MotionRun(Fail(m3), Err(e), Some(req))
  }

  /** The prompt the engine receives is the one the unit ends with, and it
      is the director's exactly when the unit's own prompt needed
      replacing. */
  lemma SynthesizePrompt(m: MotionState, placeholder: string, director: Result<string>, start: string,
                         endImage: Option<string>, isBridge: bool, model: VideoModel, kind: TransitionType,
                         reports: seq<real>, video: Result<string>)
    ensures var run := Synthesize(m, placeholder, director, start, endImage, isBridge, model, kind, reports, video);
            run.request.Some? ==>
              && run.state.prompt == Some(run.request.value.prompt)
              && (NeedsPrompt(m.prompt, placeholder) ==> director == Ok(run.request.value.prompt))
              && (!NeedsPrompt(m.prompt, placeholder) ==> m.prompt == Some(run.request.value.prompt))
  {
    var m1 := Start(m);
    if NeedsPrompt(m.prompt, placeholder) && director.Ok? {
      ReportsEffect(SetPrompt(m1, director.value), reports);
    } else if !NeedsPrompt(m.prompt, placeholder) {
      ReportsEffect(m1, reports);
    }
  }

  /** How a call past the guards settles: completed with the url and
      progress 100 when the engine succeeds, otherwise in error with the url
      untouched; either way nothing outside the four fields is involved and
      the result carries the engine's url or the error. */
  lemma SynthesizeSettles(m: MotionState, placeholder: string, director: Result<string>, start: string,
                          endImage: Option<string>, isBridge: bool, model: VideoModel, kind: TransitionType,
                          reports: seq<real>, video: Result<string>)
    ensures var run := Synthesize(m, placeholder, director, start, endImage, isBridge, model, kind, reports, video);
            && (run.result.Ok? <==> run.request.Some? && video.Ok?)
            && (run.result.Ok? ==> run.result.value == Some(video.value)
                                   && run.state.status == Some(Completed)
                                   && run.state.url == Some(video.value)
                                   && run.state.progress == Some(100.0))
            && (run.result.Err? ==> run.state.status == Some(Error) && run.state.url == m.url)
            && (run.request.Some? ==> (run.request.value.endImage.Some? <==> isBridge))
            && (NeedsPrompt(m.prompt, placeholder) && director.Err? ==> run.result == Err(director.message) && run.request.None?)
            && (!(NeedsPrompt(m.prompt, placeholder) && director.Err?) ==>
                  (run.request.None? <==> isBridge && endImage.None?))
            && (run.request.None? && !(NeedsPrompt(m.prompt, placeholder) && director.Err?) ==>
                  run.result == Err(TypeErrorMessage) && run.state.prompt.Some?)
  {
    var m1 := Start(m);
    if NeedsPrompt(m.prompt, placeholder) && director.Ok? {
      ReportsEffect(SetPrompt(m1, director.value), reports);
    } else if !NeedsPrompt(m.prompt, placeholder) {
      ReportsEffect(m1, reports);
    }
  }

  /** What `generateFrameVideo` does to its own frame, and its outcome. */
  function FrameVideo(f: FrameSpec, director: Result<string>, reports: seq<real>, video: Result<string>): (r: (FrameSpec, MotionRun))
    ensures r.0 == WithFrameMotion(f, FrameMotion(r.0))
    ensures f.videoStatus == Some(Completed) && Truthy(f.videoUrl) ==> r.0 == f && r.1.result == Ok(f.videoUrl)
    ensures r.1.request.Some? ==> MasterImage(f).Some? && r.1.request.value.startImage == MasterImage(f).value.url
  {
    var m := FrameMotion(f);
    if f.videoStatus == Some(Completed) && Truthy(f.videoUrl) then (f, MotionRun(m, Ok(f.videoUrl), None))
    else
      var master := MasterImage(f);
      if master.None? || master.value.status != Completed then (f, MotionRun(m, Ok(None), None))
      else
        var run := Synthesize(m, FrameDefaultPrompt, director, master.value.url, None, false,
                              f.videoModel.GetOr(VeoFast), Standalone, reports, video);
        (WithFrameMotion(f, run.state), run)
  }

  /** A frame video run touches the four video fields only, so the frame's
      images and master image stay as they were. */
  lemma FrameVideoKeepsImages(f: FrameSpec, director: Result<string>, reports: seq<real>, video: Result<string>)
    ensures var g := FrameVideo(f, director, reports, video).0;
            g == WithFrameMotion(f, FrameMotion(g)) && MasterImage(g) == MasterImage(f)
  {
  }

  /** `generateFrameVideo` on frame `fi` of the plan: an index out of range
      throws, otherwise only that frame is written. */
  function GenerateFrameVideo(p: ClipPlan, fi: int, director: Result<string>, reports: seq<real>,
                              video: Result<string>): (r: (ClipPlan, MotionRun))
    ensures r.0 == p.(frames := r.0.frames) && |r.0.frames| == |p.frames|
    ensures forall j :: 0 <= j < |p.frames| && j != fi ==> r.0.frames[j] == p.frames[j]
    ensures !(0 <= fi < |p.frames|) ==> r.0 == p && r.1.result == Err(TypeErrorMessage)
  {
    if !(0 <= fi < |p.frames|) then (p, MotionRun(MotionState(None, None, None, None), Err(TypeErrorMessage), None))
    else
      var (g, run) := FrameVideo(p.frames[fi], director, reports, video);
      (WithFrame(p, fi, g), run)
  }

  /** A frame out of range, already completed with a url, or without a
      completed master image is not touched; only the out-of-range index
      throws. */
  lemma FrameVideoGuards(p: ClipPlan, fi: int, director: Result<string>, reports: seq<real>, video: Result<string>)
    requires !(0 <= fi < |p.frames|)
             || (p.frames[fi].videoStatus == Some(Completed) && Truthy(p.frames[fi].videoUrl))
             || MasterImage(p.frames[fi]).None?
             || MasterImage(p.frames[fi]).value.status != Completed
    ensures var (q, run) := GenerateFrameVideo(p, fi, director, reports, video);
            q == p && run.request.None?
            && (run.result.Err? <==> !(0 <= fi < |p.frames|))
            && (0 <= fi < |p.frames| && p.frames[fi].videoStatus == Some(Completed) && Truthy(p.frames[fi].videoUrl)
                ==> run.result == Ok(p.frames[fi].videoUrl))
  {
  }

  /** Past the guards, only the four video fields of frame `fi` change; the
      engine is asked to animate the master image alone, with the frame's
      video model or the fast default. */
  lemma FrameVideoRuns(p: ClipPlan, fi: int, director: Result<string>, reports: seq<real>, video: Result<string>)
    requires 0 <= fi < |p.frames|
    requires !(p.frames[fi].videoStatus == Some(Completed) && Truthy(p.frames[fi].videoUrl))
    requires MasterImage(p.frames[fi]).Some? && MasterImage(p.frames[fi]).value.status == Completed
    ensures var (q, run) := GenerateFrameVideo(p, fi, director, reports, video);
            && q == p.(frames := q.frames) && |q.frames| == |p.frames|
            && (forall j :: 0 <= j < |p.frames| && j != fi ==> q.frames[j] == p.frames[j])
            && q.frames[fi] == WithFrameMotion(p.frames[fi], run.state)
            && (run.request.Some? ==>
                  run.request.value.startImage == MasterImage(p.frames[fi]).value.url
                  && run.request.value.endImage.None?
                  && run.request.value.kind == Standalone
                  && run.request.value.model == p.frames[fi].videoModel.GetOr(VeoFast))
  {
  }

  /** What `generateSingleTransition` does to transition `idx`, whose
      current value is `t`, and its outcome. */
  function TransitionVideo(p: ClipPlan, idx: int, t: TransitionSpec, director: Result<string>,
                           reports: seq<real>, video: Result<string>): (r: (TransitionSpec, MotionRun))
    ensures r.0 == WithTransitionMotion(t, TransitionMotion(r.0))
    ensures t.status == Completed && Truthy(t.videoUrl) ==> r.0 == t && r.1.result == Ok(t.videoUrl)
    ensures !(t.status == Completed && Truthy(t.videoUrl)) && !(0 <= idx && idx + 1 < |p.frames|) ==>
              r.0 == t && r.1.result == Err(TypeErrorMessage)
  {
    var m := TransitionMotion(t);
    if t.status == Completed && Truthy(t.videoUrl) then (t, MotionRun(m, Ok(t.videoUrl), None))
    else if !(0 <= idx && idx + 1 < |p.frames|) then (t, MotionRun(m, Err(TypeErrorMessage), None))
    else
      var img1 := MasterImage(p.frames[idx]);
      var img2 := MasterImage(p.frames[idx + 1]);
      if img1.None? || img1.value.status != Completed then (t, MotionRun(m, Ok(None), None))
      else
        var end := if img2.Some? then Some(img2.value.url) else None;
        var run := Synthesize(m, TransitionDefaultPrompt, director, img1.value.url, end, t.kind == Bridge,
                              t.modelId, t.kind, reports, video);
        (WithTransitionMotion(t, run.state), run)
  }

  /** `generateSingleTransition` on transition `idx` of the list: an index
      out of range throws, otherwise only that entry is written. */
  function GenerateSingleTransition(p: ClipPlan, ts: seq<TransitionSpec>, idx: int, director: Result<string>,
                                    reports: seq<real>, video: Result<string>): (r: (seq<TransitionSpec>, MotionRun))
    ensures |r.0| == |ts|
    ensures forall j :: 0 <= j < |ts| && j != idx ==> r.0[j] == ts[j]
    ensures !(0 <= idx < |ts|) ==> r.0 == ts && r.1.result == Err(TypeErrorMessage)
  {
    if !(0 <= idx < |ts|) then (ts, MotionRun(MotionState(None, None, None, None), Err(TypeErrorMessage), None))
    else
      var (u, run) := TransitionVideo(p, idx, ts[idx], director, reports, video);
      (ts[idx := u], run)
  }

  /** A transition already completed with a url answers with it; a
      transition whose two frames do not both exist throws before any write;
      one whose start frame has no completed master image is skipped. */
  lemma TransitionGuards(p: ClipPlan, ts: seq<TransitionSpec>, idx: int, director: Result<string>,
                         reports: seq<real>, video: Result<string>)
    requires 0 <= idx < |ts|
    requires !(ts[idx].status == Completed && Truthy(ts[idx].videoUrl))
    ensures var (ts2, run) := GenerateSingleTransition(p, ts, idx, director, reports, video);
            && (idx + 1 >= |p.frames| ==> ts2 == ts && run.result == Err(TypeErrorMessage))
            && (idx + 1 < |p.frames| && (MasterImage(p.frames[idx]).None? || MasterImage(p.frames[idx]).value.status != Completed)
                ==> ts2 == ts && run.result == Ok(None))
  {
  }

  /** Past the guards only transition `idx` changes, in its four video
      fields; the engine gets the start frame's master image and, for a
      bridge, the end frame's master image, whatever that image's status. A
      bridge whose end frame has no master image fails after the prompt
      step. */
  lemma TransitionRuns(p: ClipPlan, ts: seq<TransitionSpec>, idx: int, director: Result<string>,
                       reports: seq<real>, video: Result<string>)
    requires 0 <= idx < |ts| && idx + 1 < |p.frames|
    requires !(ts[idx].status == Completed && Truthy(ts[idx].videoUrl))
    requires MasterImage(p.frames[idx]).Some? && MasterImage(p.frames[idx]).value.status == Completed
    ensures var (ts2, run) := GenerateSingleTransition(p, ts, idx, director, reports, video);
            && |ts2| == |ts|
            && (forall j :: 0 <= j < |ts| && j != idx ==> ts2[j] == ts[j])
            && run.state.status.Some?
            && ts2[idx] == WithTransitionMotion(ts[idx], run.state)
            && (run.request.Some? ==>
                  run.request.value.startImage == MasterImage(p.frames[idx]).value.url
                  && run.request.value.model == ts[idx].modelId
                  && run.request.value.kind == ts[idx].kind
                  && (ts[idx].kind == Bridge ==> run.request.value.endImage == Some(MasterImage(p.frames[idx + 1]).value.url))
                  && (ts[idx].kind != Bridge ==> run.request.value.endImage.None?))
            && (ts[idx].kind == Bridge && MasterImage(p.frames[idx + 1]).None? ==> run.request.None? && run.result.Err?)
  {
    var t := ts[idx];
    var img2 := MasterImage(p.frames[idx + 1]);
    var end := if img2.Some? then Some(img2.value.url) else None;
    var run := Synthesize(TransitionMotion(t), TransitionDefaultPrompt, director, MasterImage(p.frames[idx]).value.url,
                          end, t.kind == Bridge, t.modelId, t.kind, reports, video);
    SynthesizeSettles(TransitionMotion(t), TransitionDefaultPrompt, director, MasterImage(p.frames[idx]).value.url,
                      end, t.kind == Bridge, t.modelId, t.kind, reports, video);
  }
}
