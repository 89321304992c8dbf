# CineFlow core, modelled in Dafny

CineFlow is a browser studio that turns a one-line concept into a short film:
it drafts a storyboard of frames, renders candidate keyframe images per frame,
animates each frame and each pair of consecutive frames into video clips
(Google Veo, with Fal.ai as a fallback provider), and stitches the clips.
Nearly all of it is React UI over remote generative APIs; this project models
the sequential core that remains once the network, timers and rendering are
taken out, and proves what that core promises.

The modules follow the program:

- `Wrappers`, `Strings` — `Option`/`Result`, and the JavaScript string
  operations the core relies on (`includes`, `startsWith`, ECMAScript `trim`,
  ASCII `toLowerCase`, `split`).
- `Types` — the storyboard records of `cineflow/types.ts`: `FrameImage`,
  `FrameSpec`, `TransitionSpec`, `CharacterSpec`, `ClipPlan`.
- `Transitions` — keeping the transition list in step with the frames.
- `FrameImages` — one keyframe render: guard, placeholders, the progress
  timer, reconciliation by identity, the quota error path.
- `Motion` — the video lifecycle of a frame clip and of a transition clip.
- `Conductor` — the one-click production run and its status line.
- `References` — the reference-image cap, the frame-level upload, master
  selection, frame removal and the stitch selection.
- `Gemini` — `cleanJson`, `toInlineData`, the fallback classifiers, keyframe
  prompt and parts, the director task and default, video request shaping.
- `Fal` — `callFalAI`: routing, slash stripping, the one-retry submit and the
  queue polling loop.
- `Veo` — the Veo operation poll, its progress reports, the download and the
  hand-over to the fallback.
- `Cast` — the cast editor of the project-concept panel and its field setters.
- `ImageSize` — the redraw sizes of `processImageFile` and `resizeImage`,
  their pass-through cases, and the empty-input check of `stitchVideos`.

Every `setPlan(prev => …)` / `setTransitions(prev => …)` updater is modelled
as a pure function of the current state, although several of them in
`cineflow/App.tsx` write into the frame or transition objects they were
handed before copying the list (see "Left out"). Every outside event (what a request answered,
a thrown fetch, a decoded picture's size, the identities `crypto.randomUUID`
hands out) is a parameter. A poller is a method fed an event stream
`ev: nat -> Event`.

## Model

| member | source | states |
|---|---|---|
| Types.MasterImage | cineflow/App.tsx:245 | A frame's master image exists exactly when its selected index is in range, and it is then one of the frame's images. |
| Types.WithFrame | cineflow/App.tsx:179-183 | Replacing one frame of a plan sets that frame and leaves every other frame and field of the plan as it was. |
| Types.NewFrame | cineflow/App.tsx:149-152 | A drafted frame is numbered from 1, carries its text, and starts idle with no images and an idle video. |
| Types.InitialPlan | cineflow/App.tsx:24-34 | The editor starts with exactly three empty, idle frames. |
| Strings.TrimStart | services/geminiService.ts:16 | The text minus its leading white-space run: a suffix of the input, preceded only by white space, not starting with white space. |
| Strings.TrimEnd | services/geminiService.ts:16 | The text minus its trailing white-space run: a prefix of the input, followed only by white space, not ending with white space. |
| Strings.Trim | services/geminiService.ts:16 | `trim()` is a slice of the input with only white space on either side of it and none at its own edges. |
| Strings.TrimOfTrimmed | services/geminiService.ts:16 | A text without white space at either end is its own trim. |
| Strings.TrimEmptyIff | cineflow/App.tsx:128 | `trim()` is empty exactly when the text is all white space, which is what `!masterConcept.trim()` tests. |
| Strings.Lower | services/geminiService.ts:220 | `toLowerCase()` keeps the length and lowers each ASCII capital in place. |
| Strings.ContainsLower | services/geminiService.ts:220 | Lowering both sides keeps an occurrence an occurrence, so the lower-cased "quota" check sees any casing of it. |
| Strings.IndexOf | services/geminiService.ts:30 | The position of the first occurrence of a character present in the text. |
| Strings.Split | services/geminiService.ts:30-31 | `split(c)` gives at least one piece, and no piece contains c. |
| Strings.SplitAtFirst | services/geminiService.ts:30-31 | Splitting a text at its first separator gives the part before it followed by the pieces of the rest. |
| Strings.JoinSplit | services/geminiService.ts:30-31 | Joining the pieces with the separator gives back the text. |
| Strings.SplitJoin | services/geminiService.ts:30-31 | Splitting a join of separator-free pieces gives back the pieces. |
| Strings.NatToString | services/geminiService.ts:132 | A status number is written as at least one character, every one a decimal digit. |
| Strings.NatToStringValue | services/geminiService.ts:132 | The digits spell the number itself, with no leading zero. |
| Strings.NatToString429 | services/geminiService.ts:132 | The quota status 429 is written "429". |
| Transitions.EnsureTransitions | cineflow/App.tsx:93-113 | The resynchronised list has max(0, frames − 1) entries; entries below the old length are kept; each appended entry at position i is the default bridge from frame i+1 to frame i+2. |
| Transitions.EnsureTransitionsIdempotent | cineflow/App.tsx:93-113 | Resynchronising to the same frame count a second time changes nothing. |
| Transitions.ResyncAll | cineflow/App.tsx:89-91 | A run of resyncs is the run without its last count, resynced once more to that last count. |
| Transitions.ResyncAllLength | cineflow/App.tsx:89-113 | After any run of frame-count changes, each followed by a resync, the list has one entry per consecutive frame pair of the last count. |
| Transitions.ResyncAllKeepsPrefix | cineflow/App.tsx:89-113 | An entry below every intermediate length survives any run of resyncs unchanged. |
| FrameImages.Guard | cineflow/App.tsx:171-173 | A frame already rendering is left alone; a completed frame with images answers with its first image's url, not its master image; any other frame is rendered. |
| FrameImages.Placeholders | cineflow/App.tsx:175-177 | One placeholder per fresh identity, in order, each generating at progress 5 with the frame's image model. |
| FrameImages.AppendPlaceholders | cineflow/App.tsx:179-183 | The placeholders go after the frame's existing images, which are kept; the frame becomes generating; no other frame or field changes. |
| FrameImages.TickedImages | cineflow/App.tsx:186-192 | After n timer ticks each image is as in the closed form: a generating image shows min(95, progress + 2n), anything else is untouched. |
| FrameImages.TickNClosedForm | cineflow/App.tsx:185-194 | n ticks of the timer on frame fi equal one write of the closed-form images into that frame and nothing else. |
| FrameImages.TickMonotoneBounded | cineflow/App.tsx:189 | A tick never lowers a generating image's progress and never lifts it past 95. |
| FrameImages.TickNFromPlaceholder | cineflow/App.tsx:176-192 | A fresh placeholder shows min(95, 5 + 2n) after n ticks. |
| FrameImages.Settle | cineflow/App.tsx:210-212 | A candidate's final image keeps the placeholder identity, has progress 100, and is completed with its url exactly when the url is truthy, otherwise an error with an empty url. |
| FrameImages.FirstIndex | cineflow/App.tsx:218 | `findIndex` by identity: the position found holds that identity, and no position holds it when nothing is found. |
| FrameImages.ReplaceById | cineflow/App.tsx:217-220 | One reconciliation step replaces only the first image with the settled image's identity; lengths and identities are preserved. |
| FrameImages.ReplaceAll | cineflow/App.tsx:217-220 | The whole reconciliation loop preserves the list's length and every position's identity. |
| FrameImages.ReplaceAllAt | cineflow/App.tsx:217-220 | Each position ends holding the last settled image of its identity when it is that identity's first occurrence, and is untouched otherwise. |
| FrameImages.LastWithIdDistinct | cineflow/App.tsx:175-177 | With distinct identities the last settled image of identity j is settled image j. |
| FrameImages.CatchCandidate | cineflow/App.tsx:203-206 | A candidate's error survives only when its message contains "QUOTA_EXHAUSTED"; any other error becomes a missing url. |
| FrameImages.FirstQuotaFailure | cineflow/App.tsx:200-208 | The call rejects with a quota message, and rejects exactly when some candidate's error survives the catch. |
| FrameImages.SettledImages | cineflow/App.tsx:210-212 | Settled image j is candidate j's outcome under the placeholder identity j. |
| FrameImages.Reconcile | cineflow/App.tsx:214-225 | The success write marks the frame completed, keeps its length and identities, and selects the last image of the whole list, not the last success; no other frame changes. |
| FrameImages.MarkFailed | cineflow/App.tsx:230-234 | The error write changes only the frame's status, to error. |
| FrameImages.GuardedFrameUnchanged | cineflow/App.tsx:172 | A call on a frame that is already rendering leaves the plan unchanged and returns normally. |
| FrameImages.PendingClosedForm | cineflow/App.tsx:179-194 | Just before settlement the frame holds its older images and then the placeholders, all ticked, and is generating. |
| FrameImages.PendingIds | cineflow/App.tsx:175-183 | In the pending images, the older images keep identities that no placeholder uses, and the placeholders carry the fresh identities in order. |
| FrameImages.ReconcileKeepsOlder | cineflow/App.tsx:217-220 | Reconciliation leaves alone an image whose identity no settled image carries. |
| FrameImages.ReconcileFillsPlaceholder | cineflow/App.tsx:217-220 | With fresh distinct identities, the placeholder at n + j becomes settled image j. |
| FrameImages.SuccessImages | cineflow/App.tsx:210-225 | Without a quota failure the frame's images are the ticked older images followed by the settled candidates. |
| FrameImages.RenderSuccess | cineflow/App.tsx:196-226 | Without a quota failure the call returns the first candidate's url (possibly empty); the frame is completed with one image per older image and candidate, the last one selected; the other frames stay. |
| FrameImages.RenderSuccessOldImages | cineflow/App.tsx:196-225 | After a success the older images keep identity, url and status; only an older image still generating (a placeholder left by an earlier quota failure) has its progress advanced by the timer. |
| FrameImages.OlderSurvive | cineflow/App.tsx:217-220 | Reconciling the pending images leaves every older image as the ticks left it. |
| FrameImages.RenderSuccessNewImages | cineflow/App.tsx:210-221 | After a success the images after the older ones are exactly the settled candidates, in candidate order. |
| FrameImages.PlaceholdersFilled | cineflow/App.tsx:217-220 | Reconciling the pending images puts settled image j at position n + j, for every j. |
| FrameImages.PendingFillsPlaceholder | cineflow/App.tsx:217-220 | Reconciling the pending images keeps their length and puts settled image k − n at placeholder position k. |
| FrameImages.RenderQuotaFailure | cineflow/App.tsx:227-235 | On a quota failure the call rejects with a quota message, and the only change is frame fi marked error holding its ticked pending images: the placeholders are never reconciled. |
| FrameImages.StalePlaceholders | cineflow/App.tsx:230-234 | The placeholders a quota failure leaves behind are still generating, with empty urls. |
| FrameImages.RenderIsLocal | cineflow/App.tsx:170-237 | A call writes its own frame only, and what it writes and returns depends only on that frame and the outside events. |
| FrameImages.RenderLocalFailed | cineflow/App.tsx:227-235 | On a quota failure the per-frame view agrees with the whole-plan call: status error, ticked pending images, the error returned. |
| FrameImages.RenderLocalSettled | cineflow/App.tsx:209-226 | On success the per-frame view agrees with the whole-plan call: reconciled images, completed, the last image selected. |
| FrameImages.RenderFrame | cineflow/App.tsx:171-235 | A guarded frame is left as it is; a rendered one gains one image per candidate and rejects exactly on a quota failure (frame in error), else ends completed with its last image selected. |
| FrameImages.GenerateFrameImages | cineflow/App.tsx:170-237 | A frame index that no longer exists throws a TypeError and changes nothing; the frame count never changes; a rejection is the first quota failure and leaves the frame in error. |
| FrameImages.ReconcileAsWrite | cineflow/App.tsx:214-225 | The success write is one frame replacement with the reconciled frame. |
| Motion.FrameMotionRoundTrip | cineflow/types.ts:32-37 | Writing a frame's four video fields and reading them back gives what was written; writing back what was read changes nothing. |
| Motion.TransitionMotion | cineflow/types.ts:44-48 | A transition's video status is always present. |
| Motion.TransitionMotionRoundTrip | cineflow/types.ts:44-48 | Writing a transition's video fields and reading them back gives what was written; writing back what was read changes nothing. |
| Motion.Start | cineflow/App.tsx:251 | Starting puts the unit in generating at progress 0 and keeps its url and prompt. |
| Motion.SetPrompt | cineflow/App.tsx:257 | The prompt write changes the prompt only. |
| Motion.Report | cineflow/App.tsx:267-271 | A progress report applies only while the unit is generating, and then changes only the progress. |
| Motion.ReportsEffect | cineflow/App.tsx:267-271 | Any run of reports changes only the progress; after the unit left generating it changes nothing; while generating the last report wins. |
| Motion.Succeed | cineflow/App.tsx:274-280 | Success sets the url, completed and progress 100, and keeps the prompt. |
| Motion.Fail | cineflow/App.tsx:285 | Failure changes only the status, to error. |
| Motion.SynthesizePrompt | cineflow/App.tsx:254-258 | The engine receives the prompt the unit ends with; a missing, empty or placeholder prompt is replaced by the director's answer first, any other is kept. |
| Motion.SynthesizeSettles | cineflow/App.tsx:253-287 | Past the guards, the unit ends completed with the engine's url and the call returns it, or ends in error and the call rejects with the error. |
| Motion.Synthesize | cineflow/App.tsx:250-287 | The unit always ends completed or in error; success requires an engine request and a delivered video, which is the result; the request carries the start image, kind and model. |
| Motion.FrameVideo | cineflow/App.tsx:241-287 | Only the frame's four video fields change; a frame already completed with a url returns it untouched; a request starts from the master image. |
| Motion.GenerateFrameVideo | cineflow/App.tsx:239-288 | The frame count is kept and every other frame is unchanged; a frame index that no longer exists throws and changes nothing. |
| Motion.TransitionVideo | cineflow/App.tsx:294-327 | Only the transition's video fields change; a completed transition with a url is returned untouched; a transition whose frames do not both exist throws and is unchanged. |
| Motion.GenerateSingleTransition | cineflow/App.tsx:290-328 | The list keeps its length and every other transition; an index that no longer exists throws and changes nothing. |
| Motion.FrameVideoKeepsImages | cineflow/App.tsx:239-288 | A frame video run changes only the four video fields, so the frame's images and master image stay. |
| Motion.FrameVideoGuards | cineflow/App.tsx:241-249 | A frame out of range, already completed with a url, or without a completed master image is not written and no video is requested; only the out-of-range index throws, and a completed frame answers with its url. |
| Motion.FrameVideoRuns | cineflow/App.tsx:250-287 | Past the guards only frame fi's video fields change, and the engine is asked with the master image and the frame's video model or the fast default. |
| Motion.TransitionGuards | cineflow/App.tsx:294-300 | A transition whose two frames do not both exist throws before any write; one whose start frame has no completed master image is skipped, answering nothing and leaving the list unchanged. |
| Motion.TransitionRuns | cineflow/App.tsx:302-327 | Past the guards only transition idx changes, in its video fields; the engine gets the start master image, its model and type, and for a bridge the next frame's master image whatever its status; a bridge whose end frame has no master image fails before any request. |
| Conductor.NeedsDraftIff | cineflow/App.tsx:341 | A storyboard is drafted exactly when every frame's text trims to empty. |
| Conductor.MergeConstraints | cineflow/App.tsx:156 | Each constraint field the draft carries replaces the plan's; absent fields keep the plan's. |
| Conductor.DraftFrames | cineflow/App.tsx:149-152 | One fresh frame per drafted text, numbered from 1. |
| Conductor.ApplyDraft | cineflow/App.tsx:153-158 | The drafted plan takes a non-empty drafted title, merges the constraints and replaces the frames; nothing else changes. |
| Conductor.DraftedFramesAreTargets | cineflow/App.tsx:149-152 | Every drafted frame is idle, with no images and an idle video, so imaging and motion both take it. |
| Conductor.DraftedNeedsDraftIff | cineflow/App.tsx:341 | A drafted storyboard would be drafted again exactly when all its texts are white space. |
| Conductor.ImagingSwarm | cineflow/App.tsx:349-353 | Every frame not yet completed is rendered as its own render alone would leave it; completed frames stay. |
| Conductor.ImagingSwarmStep | cineflow/App.tsx:349-350 | Each swarm step is one whole keyframe render on the plan the earlier steps left. |
| Conductor.FrameVideoSwarm | cineflow/App.tsx:362-366 | Every frame whose video is not completed is animated on its own; the others stay. |
| Conductor.TransitionSwarm | cineflow/App.tsx:369-373 | The loop walks the list captured at the start and writes into the current one: each captured entry not completed is animated on its own against the frames' master images; the current list keeps its length, and every other entry stays. |
| Conductor.CatchStatus | cineflow/App.tsx:381-387 | A caught error leaves "Quota Hit - Resumable" exactly when its message contains "QUOTA_EXHAUSTED", otherwise "Production Paused". |
| Conductor.FullProduction | cineflow/App.tsx:330-391 | A blank concept leaves plan, transitions and status untouched; otherwise the status is "paused" exactly when a needed draft failed, and is always one of the paused, quota-hit and complete lines; past the draft the transition list fits the drafted frame count when the draft changed it, and keeps its length otherwise. |
| Conductor.RenderErrorIsQuota | cineflow/App.tsx:203-206 | A render rejects only with a quota error. |
| Conductor.ProductionStatus | cineflow/App.tsx:330-391 | The status line is untouched exactly for a blank concept, and ends "Production Paused" exactly when a needed draft failed: an imaging failure is always a quota failure, so it never pauses. |
| Conductor.ProductionImagingStatus | cineflow/App.tsx:347-387 | Past a successful or unneeded draft, the run ends "Quota Hit - Resumable" exactly when some render rejects, and "Production Complete!" otherwise. |
| Conductor.SwarmError | cineflow/App.tsx:349-353 | The imaging swarm reports an error exactly when some target frame's render rejects. |
| Conductor.SwarmErrorWitness | cineflow/App.tsx:349-353 | The error the swarm reports is the one some target render rejected with. |
| Conductor.SwarmQuota | cineflow/App.tsx:349-353 | The error the imaging swarm reports is always a quota error. |
| Conductor.NotContainsQuota | cineflow/App.tsx:343 | The drafting-failure message is not a quota message, so it ends "Production Paused". |
| Conductor.ProductionNoEffect | cineflow/App.tsx:331-345 | A blank concept, or a needed draft that fails, leaves the plan and transitions unchanged. |
| Conductor.ProductionResumes | cineflow/App.tsx:340-387 | Without a draft, a frame already rendered keeps its images, a frame already rendered and animated and a completed transition come out unchanged, and a quota hit leaves the plan as imaging left it, each target its own render, with no clip made. |
| Conductor.ProductionDraftResizes | cineflow/App.tsx:89-113 | A draft that changes the frame count leaves one transition per drafted frame pair: the added entries are idle default bridges never started, and the surviving old entries are animated on their own when the run completes and they were not completed, and kept otherwise. |
| Conductor.ProductionCompleteAnimates | cineflow/App.tsx:356-379 | A complete run animates each frame whose video is not completed and each transition not completed on its own, against the rendered plan; the other frames stay as rendered. |
| References.SliceEnd | cineflow/App.tsx:118 | `slice(0, end)` ends within the list, counting a negative end from the back. |
| References.ImageFiles | cineflow/App.tsx:117 | Only `image/` files are kept, in order; a list of images is kept whole, a list without any becomes empty. |
| References.AppendCapped | cineflow/App.tsx:119-124 | Appends under the guard keep the old list as a prefix, never pass four from at most four, and add nothing to a full list. |
| References.Capped | cineflow/App.tsx:137 | The cap is the first min(4, length) entries. |
| References.AppendCappedIsCapped | cineflow/App.tsx:118-124 | Adding files one at a time under the guard equals capping the old list followed by every image that read. |
| References.AppendCappedAtCap | cineflow/App.tsx:122 | A full list takes no more files. |
| References.ProcessFiles | cineflow/App.tsx:115-125 | Dropping files keeps the existing references as a prefix. |
| References.ProcessFilesCap | cineflow/App.tsx:115-125 | From at most four references, adding files never yields more than four, and what is added is the first images that read, in order. |
| References.ProcessFilesIgnoresNonImages | cineflow/App.tsx:117 | Files that are not images are never added. |
| References.SearchReferences | cineflow/App.tsx:136-138 | With no found images the list stays; otherwise it is the old list followed by the found images, cut at four. |
| References.SearchReferencesParts | cineflow/App.tsx:136-138 | From at most four references, every old reference stays in front, followed by the first found images that fit, in order. |
| References.SearchInspiration | cineflow/App.tsx:127-142 | A blank concept or a failed search changes nothing; a success sets the palette notes to the briefing and adds the found images to the references as the search update does, under the cap. |
| References.CapsAgree | cineflow/App.tsx:118-137 | Both ways of adding references give the old list followed by the new images, cut at four. |
| References.RemoveAt | cineflow/App.tsx:494 | The filter drops exactly the entry at the index when it exists and returns the list otherwise. |
| References.RemoveReference | cineflow/App.tsx:494 | Removing shortens the list by one exactly when the index exists, and keeps every other entry in order. |
| References.UploadImage | cineflow/App.tsx:520-529 | No file changes nothing; a file on a frame that no longer exists throws; otherwise the plan keeps its frames and title. |
| References.SelectImage | cineflow/App.tsx:514 | Selection succeeds exactly for an existing frame, sets its selected index and keeps its images; otherwise it throws. |
| References.UploadBecomesMaster | cineflow/App.tsx:520-530 | An uploaded image is appended as completed and becomes the master image, the frame's text becomes the description, and every other frame stays. |
| References.SelectImageMaster | cineflow/App.tsx:514 | Selection succeeds exactly for an existing frame; the master becomes image ii when it exists and none otherwise; nothing else changes. |
| References.RemoveFrame | cineflow/App.tsx:511 | Removing a frame filters it out and changes nothing else. |
| References.RemoveFrameResync | cineflow/App.tsx:93-113 | After a frame removal and its resync, the list shrinks by one entry, dropping the last one, and keeps the others by position. |
| References.TransitionUrls | cineflow/App.tsx:423 | Every selected url is non-empty and is some transition's video, and no more are selected than there are transitions. |
| References.StitchSelection | cineflow/App.tsx:423-426 | The stitch goes ahead exactly when at least two transition videos exist. |
| References.TransitionUrlsComplete | cineflow/App.tsx:423 | Every transition video present is selected. |
| References.TransitionUrlsSingle | cineflow/App.tsx:423 | One transition contributes its video exactly when the url is truthy, and nothing otherwise. |
| References.TransitionUrlsAppend | cineflow/App.tsx:423 | Selection distributes over concatenation, so the videos come in transition order, each once. |
| References.TwoVideosStitch | cineflow/App.tsx:423-424 | Two transitions with videos are enough to stitch. |
| Gemini.OpeningFence | services/geminiService.ts:17-21 | A trimmed text opens with "```json" when it starts with it, otherwise with "```" when it starts with that, otherwise with no fence. |
| Gemini.Unfence | services/geminiService.ts:17-21 | Unwrapping a trimmed text leaves a trimmed text no longer than it, and leaves an unfenced text alone. |
| Gemini.UnfenceShape | services/geminiService.ts:17-21 | A trimmed fenced text is its opening fence, white space, the unwrapped body, and, when it closes with a fence, white space and that closing fence; the body is trimmed. |
| Gemini.CleanJson | services/geminiService.ts:14-23 | A missing or empty text becomes "{}"; any other text comes back trimmed and no longer, and unfenced text is only trimmed. |
| Gemini.CleanJsonShape | services/geminiService.ts:14-23 | A text whose trimmed form starts with a fence cleans to the body between the opening fence and the closing one (or the end), with only white space around it. |
| Gemini.CleanJsonWhitespace | services/geminiService.ts:15-16 | White space alone cleans to the empty text, not to "{}". |
| Gemini.CleanJsonUnwrapsFence | services/geminiService.ts:14-23 | A body fenced as a model answers, with "```json" or "```", a newline and a closing fence, cleans back to exactly the body. |
| Gemini.UnfenceOf | services/geminiService.ts:17-21 | Unfencing strips exactly the opening fence and newline that were put on, then the closing fence. |
| Gemini.UnfenceBare | services/geminiService.ts:19-20 | A bare fence followed by a newline is not a "```json" fence. |
| Gemini.ToInlineData | services/geminiService.ts:27-33 | Without a comma the text is the data, typed JPEG; otherwise the data is what lies between the first comma and the next; the type is never empty. |
| Gemini.InlineDataRoundTrip | services/geminiService.ts:27-33 | Splitting a data URI recovers its media type and payload. |
| Gemini.ToVeoImage | services/geminiService.ts:446-447 | The Veo image has bytes exactly when the text has a comma, and they are the inline-data payload; it has a media type exactly when the header before the first ';' has a ':', and that type is the colon-free run after the first ':'. |
| Gemini.SecondPiece | services/geminiService.ts:446-447 | `split(c)[1]` exists exactly when the text contains c, and is the run after the first c up to the next c or the end. |
| Gemini.VeoImageOfDataUri | services/geminiService.ts:446-453 | On a data URI the Veo split and the inline-data split agree on type and payload. |
| Gemini.VideoFallbackWider | services/geminiService.ts:493 | The video path's classifier falls back whenever the classifier shared by the image, plan, edit and reference paths (line 357 and its copies) would. |
| Gemini.ShouldFallback | services/geminiService.ts:357 | A missing message never falls back (optional chaining); a "QUOTA_EXHAUSTED" message always does, through the case-insensitive "quota" check. |
| Gemini.ShouldFallbackVideo | services/geminiService.ts:493 | The video classifier accepts every message the shared classifier accepts, and also a dropped fetch. |
| Gemini.QuotaCarriesNeedle | services/geminiService.ts:357 | A "QUOTA_EXHAUSTED" message, lower-cased, contains "quota". |
| Gemini.VideoOnlyFallback | services/geminiService.ts:493 | The video path falls back strictly more often: "Failed to fetch" alone triggers it and not the image path. |
| Gemini.QuotaExhaustedFallsBack | services/geminiService.ts:357 | Any message containing "QUOTA_EXHAUSTED" triggers both fallbacks. |
| Gemini.NoVideoFallback | services/geminiService.ts:493 | A message without '4', 'q', 'x' (either case) and without "Load failed" and "Failed to fetch" is never rescued by the video fallback. |
| Gemini.VeoTimeoutNotRescued | services/geminiService.ts:466-493 | The Veo poll's own timeout is not a fallback case: it surfaces. |
| Gemini.NoResultNotRescued | services/geminiService.ts:475-493 | A finished operation without a video link is not a fallback case either. |
| Gemini.VariationTag | services/geminiService.ts:331-332 | The shot tag names one of the five variations, cycling with the candidate index. |
| Gemini.KeyframePrompt | services/geminiService.ts:332 | A single candidate gets the base prompt and the direction; several candidates also get their variation tag in between. |
| Gemini.KeyframePromptFrame | services/geminiService.ts:332 | Every keyframe prompt starts with the base prompt and ends with the direction. |
| Gemini.KeyframePromptsDiffer | services/geminiService.ts:331-332 | Candidates of a multi-candidate request whose indices differ modulo five get different prompts. |
| Gemini.KeyframeParts | services/geminiService.ts:344-350 | A keyframe request has one part per reference plus the text; the Pro model reads the text first, the others last. |
| Gemini.KeyframePartsOneText | services/geminiService.ts:344-350 | Exactly one part is text, it carries the prompt, and it is first for the Pro model and last otherwise. |
| Gemini.KeyframeImageSize | services/geminiService.ts:336-337 | The "1K" image size is requested exactly for the Pro model. |
| Gemini.DirectorTask | services/geminiService.ts:396-398 | The director interpolates a bridge exactly when a second scene is given and the type is bridge, and animates one scene otherwise. |
| Gemini.FrameImageParts | services/geminiService.ts:412-419 | A frame contributes its tag and master image exactly when the master image is a data URI, and nothing otherwise. |
| Gemini.DirectorParts | services/geminiService.ts:393-423 | The director request is the briefing, then tag and image of the start frame when its master is a data URI, then tag and image of the end frame when bridging to a frame whose master is a data URI; its length counts exactly those parts. |
| Gemini.StartFrameShownIff | services/geminiService.ts:409-421 | The "START_FRAME:" tag is in the request exactly when the start frame's master image is a data URI. |
| Gemini.EndFrameShownIff | services/geminiService.ts:409-422 | The "END_FRAME:" tag is in the request exactly when the request directs a bridge and the end frame's master image is a data URI. |
| Gemini.DirectorAnswer | services/geminiService.ts:426 | The director's answer is never empty and never padded: the trimmed answer or the default. |
| Gemini.DirectorAnswerDefault | services/geminiService.ts:426 | The default replaces exactly the answers that are missing or all white space; any other is kept, trimmed. |
| Gemini.VeoVideoRequest | services/geminiService.ts:449-462 | One 720p video at the plan's aspect ratio, with the last frame attached exactly for a bridge with an end image. |
| Gemini.FalPayload | services/geminiService.ts:504-511 | The fallback payload carries the prompt and start image, and the end image exactly for a bridge with an end image. |
| Gemini.EndFrameAgreement | services/geminiService.ts:450-511 | Both backends receive the end frame under the same condition, and it is the same image. |
| Gemini.FalVideoEndpoint | services/geminiService.ts:498-501 | The fallback endpoint is the fast one exactly when the model id contains "fast", and the premium one otherwise. |
| Gemini.FallbackEndpointTier | services/geminiService.ts:498-501 | Each Veo model falls back to its own tier, and both fallback endpoints go through the Fal queue. |
| Gemini.FastModelSaysFast | services/geminiService.ts:499 | The fast Veo model's id contains "fast". |
| Gemini.VeoFamilyIsVideo | services/geminiService.ts:41 | Every endpoint of the Veo 3.1 family is routed to the queue. |
| Gemini.DownloadUrl | services/geminiService.ts:477-478 | The key is joined with '&' exactly when the link already has a '?', so the url keeps one query string. |
| Gemini.FalVideoUrl | services/geminiService.ts:516-518 | The fallback yields a url exactly when `video.url` or `url` is truthy, preferring `video.url`. |
| Gemini.VideoFallback | services/geminiService.ts:490-526 | An unclassified error is re-thrown as is; a classified one goes to Fal.ai, and any failure there becomes "failed on both" backends. |
| Gemini.VeoQuotaAbsorbed | services/geminiService.ts:493-523 | A quota error from Veo never surfaces as such: it becomes the fallback's answer or the "both backends" error. |
| Fal.Subdomain | services/geminiService.ts:41-42 | The queue subdomain is chosen exactly for endpoints naming a video family. |
| Fal.VideoEndpointIff | services/geminiService.ts:41 | An endpoint is routed as video exactly when it contains one of "veo", "video", "movie", "minimax", "kling" or "luma". |
| Fal.SlashRunEnd | services/geminiService.ts:45 | The run found from a position is all '/', and the character after it is not '/'. |
| Fal.SlashRunStart | services/geminiService.ts:45 | The run found back from a position is all '/', and the character before it is not '/'. |
| Fal.DropLeadingSlashes | services/geminiService.ts:45 | The leading run of '/' is removed and nothing else. |
| Fal.DropTrailingSlashes | services/geminiService.ts:45 | The trailing run of '/' is removed and nothing else. |
| Fal.StripSlashes | services/geminiService.ts:45 | The cleaned endpoint is no longer than the input and neither starts nor ends with '/'. |
| Fal.StripSlashesSlice | services/geminiService.ts:45 | The cleaned endpoint is the middle of the input, between a leading and a trailing run of '/'. |
| Fal.StripSlashesIdempotent | services/geminiService.ts:45 | Stripping twice is stripping once. |
| Fal.StrippedIsFixed | services/geminiService.ts:45 | An endpoint without leading or trailing '/' is left as it is. |
| Fal.FalUrl | services/geminiService.ts:42-46 | A video endpoint is posted to the queue host, any other to the synchronous host, each followed by the cleaned endpoint. |
| Fal.Submit | services/geminiService.ts:58-76 | One POST, and a second only when the first threw; success exactly on an ok answer; a refused answer and a twice-thrown fetch each raise. |
| Fal.RefusedSubmitNamesStatus | services/geminiService.ts:73-76 | A refused submit names its HTTP status in the message; a 429 refusal contains "429", the needle the fallback classifiers search for. |
| Fal.PollInterval | services/geminiService.ts:100 | The sleep is 2 s plus one second per consecutive error, capped at 10 s. |
| Fal.PollIntervalMonotone | services/geminiService.ts:100 | The back-off never shrinks as errors accumulate. |
| Fal.FailureText | services/geminiService.ts:162 | A failed job reports its error text, or "Unknown error". |
| Fal.PollStep | services/geminiService.ts:98-166 | One iteration: the clock advances by the sleep; a throw counts towards 30; a retryable status continues; any other error status ends "Status Error" with the status; a completed answer delivers its result; a failed one ends "processing failed" with its error text. |
| Fal.Poll | services/geminiService.ts:90-168 | The loop settles at the first step that ends it, or at the deadline: at most 600 status requests, delivery exactly on a completed answer, a timeout only after 120 polls, and the status-error, processing-failed and connection-lost messages of the step that ended it. |
| Fal.SettlesFacts | services/geminiService.ts:90-168 | Any settlement of the loop makes at most 600 requests, times out only after 120, delivers exactly a completed answer's result, and ends with the message of the step that ended it. |
| Fal.RunClock | services/geminiService.ts:95-101 | While requests are waited out, the clock advances by 2 to 10 s per request after the 1 s initial wait. |
| Fal.RunErrors | services/geminiService.ts:114-124 | While requests are waited out, the error count is the number of thrown fetches that close the run, and stays below 30. |
| Fal.ConnectionLostRun | services/geminiService.ts:115-124 | A lost connection ends a run of 30 thrown fetches in a row. |
| Fal.PollSettlesUnique | services/geminiService.ts:90-168 | The outcome of the loop is a function of the answers it receives: two settlements of the same answers agree. |
| Fal.FailedFirstAnswerStops | services/geminiService.ts:161-163 | A failed first answer ends the loop at once with "processing failed" and the job's error text. |
| Fal.CompletedFirstAnswerDelivers | services/geminiService.ts:137-159 | A completed first answer ends the loop at once with its result. |
| Fal.StatusUrl | services/geminiService.ts:87 | A non-empty `status_url` is polled as given; otherwise the queue url of the cleaned endpoint with the request id ("undefined" when missing). |
| Fal.CallFal | services/geminiService.ts:39-168 | One or two POSTs; a synchronous endpoint, a refused submit, or an answer naming neither a request id nor a status url returns without polling; otherwise the result is the poll loop's settlement on the answers. |
| Veo.Progress | services/geminiService.ts:468 | A report is 5 + 0.4 per poll until it reaches the ceiling 99, which it does exactly from poll 235 on. |
| Veo.Trace | services/geminiService.ts:438-472 | A run with k polls reports k + 1 values: 5 first, then the progress of each poll in turn. |
| Veo.TraceShape | services/geminiService.ts:438-468 | The poll's reports start at 5, never go down and never pass 99. |
| Veo.PollOperation | services/geminiService.ts:464-472 | At most 251 polls, each made while the operation was still running; the result is the finished operation's link, the thrown error, or "Synthesis Timed Out" once the attempts run out. |
| Veo.Deliver | services/geminiService.ts:474-488 | No link is the "no result" error; otherwise the downloaded video, or, when the download fails, the link with the key appended. |
| Veo.Attempt | services/geminiService.ts:464-484 | The attempt yields a url exactly when the operation finished with a link; an unfinished one is "Synthesis Timed Out", a thrown poll its own error, a finished one the download. |
| Veo.VideoTrace | services/geminiService.ts:438-495 | The whole report sequence is the poll's, followed by 15 only when the fallback takes over. |
| Veo.GenerateTransitionVideo | services/geminiService.ts:438-527 | The reports are the poll's trace; a timeout surfaces as "Synthesis Timed Out" and a finished operation delivers its download (the "no result" error without a link), never falling back; a thrown error goes to Fal.ai exactly when the video classifier accepts it, with the fallback's outcome. |
| Veo.FallbackRewindsProgress | services/geminiService.ts:468-495 | The progress bar only moves forward across the fallback when it comes within the first 25 polls; later it jumps back to 15. |
| Cast.WithCharacters | cineflow/components/ProjectConcept.tsx:60 | Writing the character list back changes nothing but the list. |
| Cast.AddCharacter | cineflow/components/ProjectConcept.tsx:46-54 | Exactly one "New Entity" entry is appended, with no images; a missing list counts as empty; the existing characters and the rest of the plan stay. |
| Cast.NewEntity | cineflow/components/ProjectConcept.tsx:51 | The appended entry is named "New Entity" (not blank) and starts with an empty image list rather than none. |
| Cast.UpdateCharacter | cineflow/components/ProjectConcept.tsx:56-62 | Only the chosen field of character idx takes the value; its other field, its images and every other character stay. |
| Cast.SpliceStart | cineflow/components/ProjectConcept.tsx:67 | `splice` starts at a non-negative index as given; a negative one counts back from the end, so on a non-empty list it names an existing entry, and one beyond the front starts at 0. |
| Cast.RemoveCharacter | cineflow/components/ProjectConcept.tsx:64-70 | The entry at idx goes and the others keep their order; an index past the end removes nothing; a negative index counts from the back, and on an empty or missing cast removes nothing. |
| Cast.RemoveUndoesAdd | cineflow/components/ProjectConcept.tsx:46-70 | Removing the entry just added, by its index or as index −1, restores the character list. |
| Cast.AddImage | cineflow/components/ProjectConcept.tsx:78-83 | An upload appends the image to the end of an existing character's images, and throws for a character that does not exist. |
| Cast.AppendedTwice | cineflow/components/ProjectConcept.tsx:75-83 | Two appends to the same character are one append of both lists. |
| Cast.UploadEach | cineflow/components/ProjectConcept.tsx:75-87 | Each file that reads is appended in file order; files that fail are skipped; nothing else changes. |
| Cast.CharImageUpload | cineflow/components/ProjectConcept.tsx:72-88 | No file list or an empty one changes nothing; otherwise the images that read are appended in order to the character. |
| Cast.PasteImage | cineflow/components/ProjectConcept.tsx:102-108 | A paste appends to an existing character, and leaves the plan unchanged when the character no longer exists. |
| Cast.PasteEach | cineflow/components/ProjectConcept.tsx:99-112 | Each pasted file that reads is appended in order; a missing character is left alone. |
| Cast.CharPaste | cineflow/components/ProjectConcept.tsx:90-115 | Only the pasted image files are used; the plan is unchanged if the character no longer exists or nothing reads. |
| Cast.PasteIsUploadOfImages | cineflow/components/ProjectConcept.tsx:72-115 | On an existing character a paste is an upload of the pasted image files. |
| Cast.RemoveCharImage | cineflow/components/ProjectConcept.tsx:117-124 | Only image imgIdx of character charIdx is filtered out; its other images keep order; a missing character throws. |
| Cast.RemoveUndoesUpload | cineflow/components/ProjectConcept.tsx:78-124 | Removing the image an upload just appended restores the character's images. |
| Cast.SetNarrativeMode | cineflow/components/ProjectConcept.tsx:164-169 | The Story and Montage buttons change only the narrative mode. |
| Cast.SetTitle | cineflow/components/ProjectConcept.tsx:321 | The title input changes only the title. |
| Cast.SetPaletteNotes | cineflow/components/ProjectConcept.tsx:329 | The brief text area changes only the palette notes. |
| Cast.SettersIndependent | cineflow/components/ProjectConcept.tsx:164-329 | The setters commute with each other and with adding a character, and none touches the cast. |
| ImageSize.Round | cineflow/services/videoUtils.ts:17-20 | `Math.round` gives the nearest integer, halves upward. |
| ImageSize.UploadSize | cineflow/services/videoUtils.ts:9-22 | A picture within 1536 on both sides keeps its size; otherwise its longer side becomes 1536 and the other follows the aspect ratio, rounded. |
| ImageSize.UploadSizeBounds | cineflow/services/videoUtils.ts:9-22 | No side grows, none ends above 1536, and an oversized picture ends with a side of exactly 1536. |
| ImageSize.UploadSizeIdempotent | cineflow/services/videoUtils.ts:9-22 | Processing an already processed picture keeps its size. |
| ImageSize.ProcessImageFile | cineflow/services/videoUtils.ts:2-42 | An unreadable file rejects; an undecodable picture or a missing canvas gives the file's own data URL; otherwise a JPEG of quality 0.9 within 1536 and no larger than the original. |
| ImageSize.ResizedSize | cineflow/services/videoUtils.ts:54-61 | A picture wider than the limit is narrowed to it with the height scaled and rounded; any other keeps its size, however tall. |
| ImageSize.ResizedSizeBounds | cineflow/services/videoUtils.ts:58-61 | The width never ends above the limit, and no side grows. |
| ImageSize.ResizedSizeIdempotent | cineflow/services/videoUtils.ts:58-61 | Resizing twice with the same limit is resizing once. |
| ImageSize.ResizeImage | cineflow/services/videoUtils.ts:44-81 | Text that is not a data URL, a failed decode or a missing canvas comes back unchanged; otherwise a JPEG at most the limit wide (1280 by default), no larger than the original, and of the same size when it fits. |
| ImageSize.StitchVideos | cineflow/services/videoUtils.ts:83-84 | An empty list is refused before anything is recorded; otherwise the recording's outcome is the result. |
| ImageSize.StitchButtonNeverRefused | cineflow/App.tsx:423-426 | The stitch button hands over at least two videos, so the empty-list refusal never reaches the user from there. |

## Left out

- Network calls (`generateContent`, `generateVideos`, `getVideosOperation`, `fetch`, `JSON.parse` of answers) are not modelled; what they answered or threw is an input.
- Timers are not modelled: the 400 ms progress interval, the sleeps of the pollers and the 4-second clearing of the status line. The Fal.ai clock advances only by its sleeps, since request latency is not modelled.
- Concurrency is not modelled. That covers `Promise.all` / `allSettled` scheduling, the `planRef` mirror and interleaved state updates. Each updater is applied to the state current when it runs.
- In-place writes are modelled as copying. Several updaters in `cineflow/App.tsx` (lines 232, 251, 257, 269, 285, 302, 307, 314, 325 and 514) assign to fields of the frame or transition object taken from `prev` and then spread the list. The model builds a new record instead. The two differ only when another update is interleaved and reads the same shared object.
- Strings.IndexOf: defined only for a character the text contains. The core asks for it only after checking, so the -1 of `indexOf` never arises.
- Strings.Lower: lowers ASCII capitals only. JavaScript's `toLowerCase` also lowers other scripts; every needle the core searches for is ASCII.
- In `Promise.all`, which quota failure wins is decided by timing. The model takes the first quota failure in candidate order.
- `handleFullProduction` reads `transitions` once, as captured when the run started. The model takes that list as a parameter. The resize that a draft triggers through the effect at `cineflow/App.tsx:89-91` is modelled. It is placed before the transition loop's writes, because it fires while the frames render.
- Floating point is treated as exact arithmetic: `Math.round` of a double quotient becomes rounding of an exact real, and the 0.4 Veo progress step is exact.
- Prompt wording (`CINEMATIC_REALISM_PROMPT`, the director and drafting templates) is opaque: the direction and briefing texts are parameters.
- `crypto.randomUUID` identities are parameters, required to be distinct and fresh for the frame.
- Canvas drawing, JPEG encoding, `FileReader` and `Image` decoding are the browser's. Their outcome is an input, and an encoded picture is represented by its size and quality.
- The recording in `stitchVideos` (`MediaRecorder`, `AudioContext`) is out of scope. Its outcome is an input.
- The optional `onProgress` callback is always taken as present. The `quality` argument of `resizeImage` is taken at its default.
- `callFalAI` follows a COMPLETED status to its `response_url`. That fetch, and its fall-back to the status payload, are not modelled: the delivered text is whatever the completed answer carried.
- Fallback paths other than the video one (search references, plan drafting, keyframes, `editImage`) appear only through their shared classifier `Gemini.ShouldFallback`. Their Fal.ai payloads are not modelled.
- `editImage`, `describeImage`, `searchVisualTrends`, `generateProjectPlan` and `generateSearchGroundedReferences` are not modelled beyond how the core uses their outcomes.
- The UI components are not part of this model: `FrameCard`, `TransitionCard`, `EditImageModal`, `VideoPlayerModal`, `Button`, `Header` and `ProgressBar`, whose clamp only affects display.
- API-key checks, `window.aistudio`, `alert` and `confirm` are left out.
- Cast.UpdateCharacter: requires an existing character. The source writes `chars[idx]` even past the end, which leaves a partial entry (or a hole) that the record type cannot hold.
- Gemini.DownloadUrl: requires an API key without '?', which any real key satisfies. Veo.Deliver inherits the same requirement.
- Veo.Deliver: the object URL made from a downloaded blob is opaque. It is an input.
- Gemini.ToInlineData: the media type is stated only for data URIs (`Gemini.InlineDataRoundTrip`). For arbitrary text the contract fixes the data part and states only that the type is never empty.
