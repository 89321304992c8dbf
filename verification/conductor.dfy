/** The one-click production run (`handleFullProduction`,
    cineflow/App.tsx:332-391) with the drafting step it may call
    (`handleMagicDraft`, cineflow/App.tsx:143-168).

    The run drafts a storyboard when every frame's text is blank, renders
    every frame that is not completed, then animates every frame whose video
    is not completed and every transition not completed in the list as it
    stood when the run began. A draft that changes the frame count also
    resizes the transition list (the effect at cineflow/App.tsx:89-91) while
    the frames render; the entries that resize adds are not started by this
    run, and the loop over the old list never reaches them. The imaging tasks run in parallel and
    each writes to its own frame only, so the model runs them one after the
    other in index order and shows (`FrameImages.RenderIsLocal`) that every
    frame ends as if its task had run alone. Every outcome of the outside
    world (the drafted plan, the placeholder identities, the candidates, the
    director's prompts, the engine's videos) is a parameter. */
module Conductor {

  import opened Wrappers
  import opened Strings
  import opened Types
  import opened FrameImages
  import opened Motion
  import opened Transitions

  const DirectingStatus: string := "Directing the Storyboard Swarm..."
  const CompleteStatus: string := "Production Complete!"
  const QuotaStatus: string := "Quota Hit - Resumable"
  const PausedStatus: string := "Production Paused"
  const DraftFailedMessage: string := "Drafting failed"

  /** A storyboard is drafted when every frame's text is white space only
      (vacuously so for an empty storyboard); `NeedsDraftIff` relates this to
      the text's trimmed form being empty. A concept is blank in the same
      sense (`Strings.TrimEmptyIff`). */
  predicate NeedsDraft(frames: seq<FrameSpec>) {
    forall i :: 0 <= i < |frames| ==> AllWhitespace(frames[i].raw)
  }

  lemma {:induction false} NeedsDraftIff(frames: seq<FrameSpec>)
    ensures NeedsDraft(frames) <==> forall i :: 0 <= i < |frames| ==> Trim(frames[i].raw) == []
  {
    forall i | 0 <= i < |frames|
      ensures Trim(frames[i].raw) == [] <==> AllWhitespace(frames[i].raw)
    {
      TrimEmptyIff(frames[i].raw);
    }
  }

  /** The fields of the drafted global constraints that the answer carries;
      a present field replaces the plan's (object spread). */
  datatype ConstraintPatch = ConstraintPatch(
    continuityRules: Option<seq<string>>,
    paletteNotes: Option<string>,
    doNotInclude: Option<seq<string>>,
    characters: Option<seq<CharacterSpec>>)

  /** What the drafting service answers: nothing (it threw), or a title, a
      patch for the constraints and the frame texts (a missing list counts
      as empty). */
  datatype DraftOutcome = DraftFailed | Drafted(title: Option<string>, patch: ConstraintPatch, raws: Option<seq<string>>)

  function MergeConstraints(g: GlobalConstraints, patch: ConstraintPatch): (r: GlobalConstraints)
    ensures r.continuityRules == patch.continuityRules.GetOr(g.continuityRules)
    ensures r.paletteNotes == patch.paletteNotes.GetOr(g.paletteNotes)
    ensures r.doNotInclude == patch.doNotInclude.GetOr(g.doNotInclude)
    ensures r.characters == (if patch.characters.Some? then patch.characters else g.characters)
  {
    GlobalConstraints(
      patch.continuityRules.GetOr(g.continuityRules),
      patch.paletteNotes.GetOr(g.paletteNotes),
      patch.doNotInclude.GetOr(g.doNotInclude),
      if patch.characters.Some? then patch.characters else g.characters)
  }

  /** The drafted frames: fresh, numbered from 1, one per text. */
  function DraftFrames(raws: seq<string>): (r: seq<FrameSpec>)
    ensures |r| == |raws|
    ensures forall i :: 0 <= i < |raws| ==> r[i] == NewFrame(i, raws[i])
  {
    seq(|raws|, i requires 0 <= i < |raws| => NewFrame(i, raws[i]))
  }

  /** The plan after a successful draft: the title when the answer has a
      non-empty one, merged constraints, the drafted frames. */
  function ApplyDraft(p: ClipPlan, title: Option<string>, patch: ConstraintPatch, raws: Option<seq<string>>): (r: ClipPlan)
    ensures r.title == (if Truthy(title) then title.value else p.title)
    ensures r.frames == DraftFrames(raws.GetOr([]))
    ensures r == p.(title := r.title, globalConstraints := MergeConstraints(p.globalConstraints, patch), frames := r.frames)
  {
    p.(title := if Truthy(title) then title.value else p.title,
       globalConstraints := MergeConstraints(p.globalConstraints, patch),
       frames := DraftFrames(raws.GetOr([])))
  }

  /** The plan the imaging step starts from. */
  function Staged(p: ClipPlan, draft: DraftOutcome): ClipPlan {
    if NeedsDraft(p.frames) && draft.Drafted? then ApplyDraft(p, draft.title, draft.patch, draft.raws) else p
  }

  /** Every drafted frame is idle and without images or video, so the rest of
      the run renders and animates all of them. */
  lemma DraftedFramesAreTargets(raws: seq<string>, i: int)
    requires 0 <= i < |raws|
    ensures var f := DraftFrames(raws)[i];
            ImagingTarget(f) && MotionTarget(f) && f.images == [] && f.index == i + 1 && f.raw == raws[i]
  {
  }

  /** A drafted storyboard needs no second draft exactly when some drafted
      text is more than white space. */
  lemma DraftedNeedsDraftIff(raws: seq<string>)
    ensures NeedsDraft(DraftFrames(raws)) <==> forall i :: 0 <= i < |raws| ==> AllWhitespace(raws[i])
  {
  }

  /** Frames the imaging step renders, and frames the motion step animates. */
  predicate ImagingTarget(f: FrameSpec) {
    f.status != Completed
  }

  predicate MotionTarget(f: FrameSpec) {
    f.videoStatus != Some(Completed)
  }

  /** The outside world's part in one frame's render. */
  datatype RenderInput = RenderInput(ids: seq<string>, ticks: nat, cs: seq<Candidate>)

  /** One identity and one candidate per requested candidate, the
      identities fresh for the frame. */
  predicate Fits(f: FrameSpec, r: RenderInput) {
    |r.ids| == f.candidateCount == |r.cs| && FreshFor(r.ids, f.images)
  }

  predicate RendersFit(frames: seq<FrameSpec>, renders: seq<RenderInput>) {
    |renders| == |frames| && forall j :: 0 <= j < |frames| && ImagingTarget(frames[j]) ==> Fits(frames[j], renders[j])
  }

  /** The render of frame `j` run on its own. */
  function RenderAlone(f: FrameSpec, r: RenderInput): (FrameSpec, Result<Option<string>>)
    requires Fits(f, r)
  {
    RenderFrame(f, r.ids, r.ticks, r.cs)
  }

  /** The imaging swarm from frame `i` on: every target frame rendered, the
      error of the first one that rejects (if any) reported. Each frame ends
      as its own render alone would leave it. */
  function ImagingSwarm(p: ClipPlan, i: nat, renders: seq<RenderInput>): (r: (ClipPlan, Option<string>))
    requires i <= |p.frames| && |renders| == |p.frames|
    requires forall j :: i <= j < |p.frames| && ImagingTarget(p.frames[j]) ==> Fits(p.frames[j], renders[j])
    ensures r.0 == p.(frames := r.0.frames) && |r.0.frames| == |p.frames|
    ensures forall j :: 0 <= j < i ==> r.0.frames[j] == p.frames[j]
    ensures forall j :: i <= j < |p.frames| ==>
              r.0.frames[j] == (if ImagingTarget(p.frames[j]) then RenderAlone(p.frames[j], renders[j]).0 else p.frames[j])
    decreases |p.frames| - i
  {
    if i == |p.frames| then (p, None)
    else if !ImagingTarget(p.frames[i]) then ImagingSwarm(p, i + 1, renders)
    else
      assert Fits(p.frames[i], renders[i]);
      var (g, res) := RenderAlone(p.frames[i], renders[i]);
      var rest := ImagingSwarm(WithFrame(p, i, g), i + 1, renders);
      (rest.0, if res.Err? then Some(res.message) else rest.1)
  }

  /** Each step of the swarm is one whole `generateFrameImages` call on
      the plan as the earlier steps left it. */
  lemma ImagingSwarmStep(p: ClipPlan, i: nat, renders: seq<RenderInput>)
    requires i < |p.frames| && |renders| == |p.frames| && ImagingTarget(p.frames[i])
    requires Fits(p.frames[i], renders[i])
    requires forall j :: i < j < |p.frames| && ImagingTarget(p.frames[j]) ==> Fits(p.frames[j], renders[j])
    ensures var run := GenerateFrameImages(p, i, renders[i].ids, renders[i].ticks, renders[i].cs);
            && run.plan == WithFrame(p, i, RenderAlone(p.frames[i], renders[i]).0)
            && ImagingSwarm(p, i, renders)
               == (ImagingSwarm(run.plan, i + 1, renders).0,
                   if run.result.Err? then Some(run.result.message) else ImagingSwarm(run.plan, i + 1, renders).1)
  {
    RenderIsLocal(p, i, renders[i].ids, renders[i].ticks, renders[i].cs);
  }

  /** The outside world's part in one video run. */
  datatype MotionInput = MotionInput(director: Result<string>, reports: seq<real>, video: Result<string>)

  /** The frame clips from frame `i` on: every target frame animated on its
      own. */
  function FrameVideoSwarm(p: ClipPlan, i: nat, inputs: seq<MotionInput>): (r: ClipPlan)
    requires i <= |p.frames| && |inputs| == |p.frames|
    ensures r == p.(frames := r.frames) && |r.frames| == |p.frames|
    ensures forall j :: 0 <= j < i ==> r.frames[j] == p.frames[j]
    ensures forall j :: i <= j < |p.frames| ==>
              r.frames[j] == (if MotionTarget(p.frames[j])
                              then FrameVideo(p.frames[j], inputs[j].director, inputs[j].reports, inputs[j].video).0
                              else p.frames[j])
    decreases |p.frames| - i
  {
    if i == |p.frames| then p
    else if !MotionTarget(p.frames[i]) then FrameVideoSwarm(p, i + 1, inputs)
    else
      var x := inputs[i];
      FrameVideoSwarm(GenerateFrameVideo(p, i, x.director, x.reports, x.video).0, i + 1, inputs)
  }

  /** The transitions from entry `i` on. The loop walks `ts`, the list as
      it stood when the run began, and starts every entry of it that was not
      completed; each call writes into `cur`, the list as it stands now,
      which a draft may have resized. An entry of `ts` past the end of `cur`
      has no second frame, so its call throws before writing; an entry of
      `cur` past the end of `ts` is never started. Each call reads the entry
      it writes; within a run that entry is the captured one (see
      `ProductionDraftResizes`). */
  function TransitionSwarm(p: ClipPlan, cur: seq<TransitionSpec>, ts: seq<TransitionSpec>, i: nat,
                           inputs: seq<MotionInput>): (r: seq<TransitionSpec>)
    requires i <= |ts| && |inputs| == |ts|
    ensures |r| == |cur|
    ensures forall j :: 0 <= j < |cur| && !(i <= j < |ts| && ts[j].status != Completed) ==> r[j] == cur[j]
    ensures forall j :: i <= j < |ts| && j < |cur| && ts[j].status != Completed ==>
              r[j] == TransitionVideo(p, j, cur[j], inputs[j].director, inputs[j].reports, inputs[j].video).0
    decreases |ts| - i
  {
    if i == |ts| then cur
    else if ts[i].status == Completed then TransitionSwarm(p, cur, ts, i + 1, inputs)
    else
      var x := inputs[i];
      TransitionSwarm(p, GenerateSingleTransition(p, cur, i, x.director, x.reports, x.video).0, ts, i + 1, inputs)
  }

  /** The status line a caught error leaves. */
  function CatchStatus(message: string): (s: string)
    ensures s == QuotaStatus <==> Contains(message, "QUOTA_EXHAUSTED")
    ensures s == QuotaStatus || s == PausedStatus
  {
    if Contains(message, "QUOTA_EXHAUSTED") then QuotaStatus else PausedStatus
  }

  /** The end of one production run: the plan, the transition list, and the
      status line it leaves (`None`: not touched). */
  datatype Production = Production(plan: ClipPlan, transitions: seq<TransitionSpec>, status: Option<string>)

  /** The whole run. `ts` is the transition list as it was when the run
      began, the one the transition loop walks. A successful draft that
      changes the frame count resizes the current list to the drafted count
      before any clip is requested. */
  function FullProduction(concept: string, p: ClipPlan, ts: seq<TransitionSpec>, draft: DraftOutcome,
                          renders: seq<RenderInput>, frameVideos: seq<MotionInput>,
                          transitionVideos: seq<MotionInput>): (r: Production)
    requires RendersFit(Staged(p, draft).frames, renders)
    requires |frameVideos| == |Staged(p, draft).frames| && |transitionVideos| == |ts|
    ensures r.status.None? <==> AllWhitespace(concept)
    ensures AllWhitespace(concept) ==> r.plan == p && r.transitions == ts
    ensures r.status == Some(PausedStatus) <==> !AllWhitespace(concept) && NeedsDraft(p.frames) && draft.DraftFailed?
    ensures r.status.Some? ==> r.status.value in {QuotaStatus, PausedStatus, CompleteStatus}
    ensures r.status.Some? && r.status != Some(PausedStatus) ==>
              |r.transitions| == (if |Staged(p, draft).frames| != |p.frames|
                                  then PairCount(|Staged(p, draft).frames|) else |ts|)
  {
    if AllWhitespace(concept) then Production(p, ts, None)
    else if NeedsDraft(p.frames) && draft.DraftFailed? then
      NotContainsQuota();
      Production(p, ts, Some(CatchStatus(DraftFailedMessage)))
    else
      var q := Staged(p, draft);
      var cur := if |q.frames| != |p.frames| then EnsureTransitions(ts, |q.frames|) else ts;
      SwarmQuota(q, renders);
      var (q1, err) := ImagingSwarm(q, 0, renders);
      match err
      case Some(m) => Production(q1, cur, Some(CatchStatus(m)))
      case None =>
        Production(FrameVideoSwarm(q1, 0, frameVideos), TransitionSwarm(q1, cur, ts, 0, transitionVideos), Some(CompleteStatus))
  }

  /** Whether some frame's render rejects. */
  predicate ImagingFails(q: ClipPlan, renders: seq<RenderInput>)
    requires RendersFit(q.frames, renders)
  {
    exists j :: 0 <= j < |q.frames| && ImagingTarget(q.frames[j]) && RenderAlone(q.frames[j], renders[j]).1.Err?
  }

  /** A render rejects only with a quota error. */
  lemma RenderErrorIsQuota(f: FrameSpec, r: RenderInput)
    requires Fits(f, r)
    ensures RenderAlone(f, r).1.Err? ==> IsQuotaMessage(RenderAlone(f, r).1.message)
  {
  }

  /** The status line: untouched for a blank concept, "paused" exactly when
      the draft was needed and failed, and otherwise "quota hit" when some
      render rejected (renders reject only with quota errors) and "complete"
      when none did. */
  lemma ProductionStatus(concept: string, p: ClipPlan, ts: seq<TransitionSpec>, draft: DraftOutcome,
                         renders: seq<RenderInput>, frameVideos: seq<MotionInput>,
                         transitionVideos: seq<MotionInput>)
    requires RendersFit(Staged(p, draft).frames, renders)
    requires |frameVideos| == |Staged(p, draft).frames| && |transitionVideos| == |ts|
    ensures var r := FullProduction(concept, p, ts, draft, renders, frameVideos, transitionVideos);
            && (r.status.None? <==> AllWhitespace(concept))
            && (r.status == Some(PausedStatus) <==> !AllWhitespace(concept) && NeedsDraft(p.frames) && draft.DraftFailed?)
  {
    if !AllWhitespace(concept) && NeedsDraft(p.frames) && draft.DraftFailed? {
      NotContainsQuota();
    } else if !AllWhitespace(concept) {
      SwarmQuota(Staged(p, draft), renders);
    }
  }

  /** Past a successful or unneeded draft, the run ends "quota hit" exactly
      when some render rejects, and "complete" otherwise. */
  lemma ProductionImagingStatus(concept: string, p: ClipPlan, ts: seq<TransitionSpec>, draft: DraftOutcome,
                                renders: seq<RenderInput>, frameVideos: seq<MotionInput>,
                                transitionVideos: seq<MotionInput>)
    requires RendersFit(Staged(p, draft).frames, renders)
    requires |frameVideos| == |Staged(p, draft).frames| && |transitionVideos| == |ts|
    requires !AllWhitespace(concept) && !(NeedsDraft(p.frames) && draft.DraftFailed?)
    ensures var r := FullProduction(concept, p, ts, draft, renders, frameVideos, transitionVideos);
            && (r.status == Some(QuotaStatus) <==> ImagingFails(Staged(p, draft), renders))
            && (r.status == Some(CompleteStatus) <==> !ImagingFails(Staged(p, draft), renders))
  {
    SwarmError(Staged(p, draft), 0, renders);
    SwarmQuota(Staged(p, draft), renders);
  }

  /** The swarm from frame `i` on reports an error exactly when some
      render from there on rejects. */
  lemma {:induction false} SwarmError(p: ClipPlan, i: nat, renders: seq<RenderInput>)
    requires i <= |p.frames| && |renders| == |p.frames|
    requires forall j :: i <= j < |p.frames| && ImagingTarget(p.frames[j]) ==> Fits(p.frames[j], renders[j])
    ensures ImagingSwarm(p, i, renders).1.Some? <==>
              exists j :: i <= j < |p.frames| && ImagingTarget(p.frames[j]) && RenderAlone(p.frames[j], renders[j]).1.Err?
    decreases |p.frames| - i
  {
    if i < |p.frames| {
      if ImagingTarget(p.frames[i]) {
        var q := WithFrame(p, i, RenderAlone(p.frames[i], renders[i]).0);
        SwarmError(q, i + 1, renders);
        assert forall j :: i < j < |p.frames| ==> q.frames[j] == p.frames[j];
      } else {
        SwarmError(p, i + 1, renders);
      }
    }
  }

  /** The error the swarm reports is the one some render rejects with. */
  lemma {:induction false} SwarmErrorWitness(p: ClipPlan, i: nat, renders: seq<RenderInput>)
    requires i <= |p.frames| && |renders| == |p.frames|
    requires forall j :: i <= j < |p.frames| && ImagingTarget(p.frames[j]) ==> Fits(p.frames[j], renders[j])
    ensures var e := ImagingSwarm(p, i, renders).1;
            e.Some? ==> exists j :: i <= j < |p.frames| && ImagingTarget(p.frames[j])
                                    && RenderAlone(p.frames[j], renders[j]).1 == Err(e.value)
    decreases |p.frames| - i
  {
    if i < |p.frames| {
      if ImagingTarget(p.frames[i]) {
        var q := WithFrame(p, i, RenderAlone(p.frames[i], renders[i]).0);
        SwarmErrorWitness(q, i + 1, renders);
        assert forall j :: i < j < |p.frames| ==> q.frames[j] == p.frames[j];
      } else {
        SwarmErrorWitness(p, i + 1, renders);
      }
    }
  }

  /** The error the swarm reports is a quota error. */
  lemma SwarmQuota(p: ClipPlan, renders: seq<RenderInput>)
    requires RendersFit(p.frames, renders)
    ensures var e := ImagingSwarm(p, 0, renders).1;
            e.Some? ==> IsQuotaMessage(e.value)
  {
    SwarmErrorWitness(p, 0, renders);
    var e := ImagingSwarm(p, 0, renders).1;
    if e.Some? {
      var j :| 0 <= j < |p.frames| && ImagingTarget(p.frames[j]) && RenderAlone(p.frames[j], renders[j]).1 == Err(e.value);
      RenderErrorIsQuota(p.frames[j], renders[j]);
    }
  }

  lemma NotContainsQuota()
    ensures !Contains(DraftFailedMessage, "QUOTA_EXHAUSTED")
  {
    if Contains(DraftFailedMessage, "QUOTA_EXHAUSTED") {
      var i := ContainsWitness(DraftFailedMessage, "QUOTA_EXHAUSTED");
      NoQuotaAt(i);
      assert false;
    }
  }

  lemma NoQuotaAt(i: int)
    ensures !OccursAt(DraftFailedMessage, "QUOTA_EXHAUSTED", i)
  {
    if 0 <= i && i + 15 <= |DraftFailedMessage| {
      assert DraftFailedMessage[i..i + 15][0] == 'D';
    }
  }



  /** A blank concept changes nothing; a failed draft changes nothing but
      the status line. */
  lemma ProductionNoEffect(concept: string, p: ClipPlan, ts: seq<TransitionSpec>, draft: DraftOutcome,
                           renders: seq<RenderInput>, frameVideos: seq<MotionInput>,
                           transitionVideos: seq<MotionInput>)
    requires RendersFit(Staged(p, draft).frames, renders)
    requires |frameVideos| == |Staged(p, draft).frames| && |transitionVideos| == |ts|
    requires AllWhitespace(concept) || (NeedsDraft(p.frames) && draft.DraftFailed?)
    ensures var r := FullProduction(concept, p, ts, draft, renders, frameVideos, transitionVideos);
            r.plan == p && r.transitions == ts
  {
  }

  /** Resuming: without a draft, a frame that is already rendered and
      animated, and a transition that is already completed, come out of the
      run exactly as they went in, and a frame already rendered keeps its
      images. A quota hit ends the run after imaging: each target frame is
      its own render and no clip is made. A complete run animates every
      frame whose video is not completed and every transition not
      completed, each on its own against the rendered plan. */
  lemma {:induction false} ProductionResumes(concept: string, p: ClipPlan, ts: seq<TransitionSpec>, draft: DraftOutcome,
                                             renders: seq<RenderInput>, frameVideos: seq<MotionInput>,
                                             transitionVideos: seq<MotionInput>)
    requires RendersFit(Staged(p, draft).frames, renders)
    requires |frameVideos| == |Staged(p, draft).frames| && |transitionVideos| == |ts|
    requires !AllWhitespace(concept) && !NeedsDraft(p.frames)
    ensures var r := FullProduction(concept, p, ts, draft, renders, frameVideos, transitionVideos);
            && |r.plan.frames| == |p.frames| && |r.transitions| == |ts|
            && r.plan == p.(frames := r.plan.frames)
            && (forall j :: 0 <= j < |p.frames| && !ImagingTarget(p.frames[j]) && !MotionTarget(p.frames[j])
                  ==> r.plan.frames[j] == p.frames[j])
            && (forall j :: 0 <= j < |p.frames| && !ImagingTarget(p.frames[j])
                  ==> r.plan.frames[j].images == p.frames[j].images)
            && (forall j :: 0 <= j < |ts| && ts[j].status == Completed ==> r.transitions[j] == ts[j])
            && (forall j :: 0 <= j < |p.frames| && ImagingTarget(p.frames[j]) && r.status == Some(QuotaStatus)
                  ==> r.plan.frames[j] == RenderAlone(p.frames[j], renders[j]).0)
            && (r.status == Some(QuotaStatus) ==> r.plan == ImagingSwarm(p, 0, renders).0 && r.transitions == ts)
  {
    var sw := ImagingSwarm(p, 0, renders);
    if sw.1.None? {
      var q1 := sw.0;
      var fv := FrameVideoSwarm(q1, 0, frameVideos);
      forall j | 0 <= j < |p.frames| && !ImagingTarget(p.frames[j])
        ensures fv.frames[j].images == p.frames[j].images
      {
        assert q1.frames[j] == p.frames[j];
        var x := frameVideos[j];
        FrameVideoKeepsImages(q1.frames[j], x.director, x.reports, x.video);
      }
      forall j | 0 <= j < |p.frames| && !ImagingTarget(p.frames[j]) && !MotionTarget(p.frames[j])
        ensures fv.frames[j] == p.frames[j]
      {
        assert q1.frames[j] == p.frames[j];
      }
    }
  }

  /** A complete run, without a draft, animates every frame whose video is
      not completed and every transition not completed, each on its own
      against the rendered plan; the other frames stay as rendered. */
  lemma ProductionCompleteAnimates(concept: string, p: ClipPlan, ts: seq<TransitionSpec>, draft: DraftOutcome,
                                   renders: seq<RenderInput>, frameVideos: seq<MotionInput>,
                                   transitionVideos: seq<MotionInput>)
    requires RendersFit(Staged(p, draft).frames, renders)
    requires |frameVideos| == |Staged(p, draft).frames| && |transitionVideos| == |ts|
    requires !AllWhitespace(concept) && !NeedsDraft(p.frames)
    ensures var r := FullProduction(concept, p, ts, draft, renders, frameVideos, transitionVideos);
            var q1 := ImagingSwarm(p, 0, renders).0;
            r.status == Some(CompleteStatus) ==>
              && (forall j :: 0 <= j < |p.frames| ==>
                    r.plan.frames[j] == (if MotionTarget(q1.frames[j])
                                         then FrameVideo(q1.frames[j], frameVideos[j].director,
                                                         frameVideos[j].reports, frameVideos[j].video).0
                                         else q1.frames[j]))
              && (forall j :: 0 <= j < |ts| && ts[j].status != Completed ==>
                    r.transitions[j] == TransitionVideo(q1, j, ts[j], transitionVideos[j].director,
                                                        transitionVideos[j].reports, transitionVideos[j].video).0)
  {
    var sw := ImagingSwarm(p, 0, renders);
    if sw.1.Some? {
      assert FullProduction(concept, p, ts, draft, renders, frameVideos, transitionVideos).status
             == Some(CatchStatus(sw.1.value));
    }
  }

  /** A draft that changes the frame count: the run ends with one transition
      per consecutive pair of drafted frames. An entry the resize added is
      the default idle bridge, never started; an entry of the old list that
      survives the resize is animated on its own against the rendered plan
      when the run completes and was not completed, and is kept otherwise. */
  lemma ProductionDraftResizes(concept: string, p: ClipPlan, ts: seq<TransitionSpec>, draft: DraftOutcome,
                               renders: seq<RenderInput>, frameVideos: seq<MotionInput>,
                               transitionVideos: seq<MotionInput>)
    requires RendersFit(Staged(p, draft).frames, renders)
    requires |frameVideos| == |Staged(p, draft).frames| && |transitionVideos| == |ts|
    requires !AllWhitespace(concept) && NeedsDraft(p.frames) && draft.Drafted?
    requires |Staged(p, draft).frames| != |p.frames|
    ensures var r := FullProduction(concept, p, ts, draft, renders, frameVideos, transitionVideos);
            var n := PairCount(|Staged(p, draft).frames|);
            var q1 := ImagingSwarm(Staged(p, draft), 0, renders).0;
            && |r.transitions| == n
            && (forall j :: |ts| <= j < n ==> r.transitions[j] == DefaultTransition(j) && r.transitions[j].status == Idle)
            && (forall j :: 0 <= j < |ts| && j < n ==>
                  r.transitions[j] == (if r.status == Some(CompleteStatus) && ts[j].status != Completed
                                       then TransitionVideo(q1, j, ts[j], transitionVideos[j].director,
                                                            transitionVideos[j].reports, transitionVideos[j].video).0
                                       else ts[j]))
  {
    var q := Staged(p, draft);
    var sw := ImagingSwarm(q, 0, renders);
    if sw.1.Some? {
      assert FullProduction(concept, p, ts, draft, renders, frameVideos, transitionVideos).status
             == Some(CatchStatus(sw.1.value));
    } else {
      assert FullProduction(concept, p, ts, draft, renders, frameVideos, transitionVideos).status
             == Some(CompleteStatus);
    }
  }
}
