/** The production plan: frames with their candidate images and video fields,
    the transitions between consecutive frames, and the project-level
    constraints (cineflow/types.ts). Optional fields of the source are
    `Option`s; progress values are exact reals. */
module Types {

  import opened Wrappers

  /** The four-valued status shared by images, frames, frame videos and
      transitions. */
  datatype Status = Idle | Generating | Completed | Error

  datatype ImageModel = GeminiProImage | GeminiFlashImage | CustomUpload

  datatype VideoModel = VeoFast | VeoQuality

  datatype AspectRatio = Landscape | Portrait

  datatype NarrativeMode = Story | Montage

  datatype TransitionType = Bridge | Standalone

  datatype PolicyMode = Simple | Director

  /** The message of the TypeError raised by reading a field of a missing
      frame, transition, image or character. */
  const TypeErrorMessage: string := "TypeError"

  function ImageModelName(m: ImageModel): string {
    match m
    case GeminiProImage => "gemini-3-pro-image-preview"
    case GeminiFlashImage => "gemini-2.5-flash-image"
    case CustomUpload => "custom-upload"
  }

  function VideoModelName(m: VideoModel): string {
    match m
    case VeoFast => "veo-3.1-fast-generate-preview"
    case VeoQuality => "veo-3.1-generate-preview"
  }

  function AspectRatioName(a: AspectRatio): string {
    match a
    case Landscape => "16:9"
    case Portrait => "9:16"
  }

  /** One rendered, uploaded or placeholder candidate image. */
  datatype FrameImage = FrameImage(
    id: string,
    url: string,
    status: Status,
    modelId: ImageModel,
    progress: Option<real>)

  /** One shot of the storyboard. */
  datatype FrameSpec = FrameSpec(
    index: int,
    raw: string,
    structuredPrompt: Option<string>,
    images: seq<FrameImage>,
    selectedImageIndex: int,
    candidateCount: int,
    status: Status,
    imageModel: ImageModel,
    videoUrl: Option<string>,
    videoStatus: Option<Status>,
    videoProgress: Option<real>,
    videoPrompt: Option<string>,
    videoModel: Option<VideoModel>)

  /** The motion unit between frame `fromIndex` and frame `toIndex`
      (1-based). The source's field `type` is called `kind` here. */
  datatype TransitionSpec = TransitionSpec(
    fromIndex: int,
    toIndex: int,
    kind: TransitionType,
    directorPrompt: Option<string>,
    videoUrl: Option<string>,
    modelId: VideoModel,
    status: Status,
    progress: Option<real>)

  datatype CharacterSpec = CharacterSpec(
    name: string,
    description: string,
    images: Option<seq<string>>)

  datatype GlobalConstraints = GlobalConstraints(
    continuityRules: seq<string>,
    paletteNotes: string,
    doNotInclude: seq<string>,
    characters: Option<seq<CharacterSpec>>)

  datatype TransitionPolicy = TransitionPolicy(mode: PolicyMode, durationSeconds: real)

  datatype ClipPlan = ClipPlan(
    title: string,
    aspectRatio: AspectRatio,
    narrativeMode: NarrativeMode,
    globalConstraints: GlobalConstraints,
    frames: seq<FrameSpec>,
    transitionPolicy: TransitionPolicy)

  /** JavaScript truthiness of an optional string: present and non-empty. */
  predicate Truthy(s: Option<string>) {
    s.Some? && s.value != ""
  }

  /** The master image of a frame, `frame.images[frame.selectedImageIndex]`,
      which is `undefined` when the index is out of range. */
  function MasterImage(f: FrameSpec): (r: Option<FrameImage>)
    ensures r.Some? <==> 0 <= f.selectedImageIndex < |f.images|
    ensures r.Some? ==> r.value in f.images
  {
    if 0 <= f.selectedImageIndex < |f.images| then Some(f.images[f.selectedImageIndex]) else None
  }

  /** The plan with frame `i` replaced by `f`. */
  function WithFrame(p: ClipPlan, i: int, f: FrameSpec): (r: ClipPlan)
    requires 0 <= i < |p.frames|
    ensures |r.frames| == |p.frames| && r.frames[i] == f
    ensures forall j :: 0 <= j < |p.frames| && j != i ==> r.frames[j] == p.frames[j]
    ensures r == p.(frames := r.frames)
  {
    p.(frames := p.frames[i := f])
  }

  /** The fresh frame shape used by the initial plan and by drafting
      (cineflow/App.tsx:29-32, 149-152). */
  function NewFrame(i: nat, raw: string): (f: FrameSpec)
    ensures f.index == i + 1 && f.raw == raw && f.images == []
    ensures f.status == Idle && f.videoStatus == Some(Idle)
  {
    FrameSpec(i + 1, raw, None, [], 0, 1, Idle, GeminiProImage,
              None, Some(Idle), Some(0.0), Some("Cinematic motion..."), Some(VeoFast))
  }

  /** The default plan the editor starts from: three empty frames
      (cineflow/App.tsx:24-34). */
  function InitialPlan(): (p: ClipPlan)
    ensures |p.frames| == 3
    ensures forall i :: 0 <= i < 3 ==> p.frames[i] == NewFrame(i, "")
  {
    ClipPlan("Untitled Project", Landscape, Story,
             GlobalConstraints([], "", [], Some([])),
             [NewFrame(0, ""), NewFrame(1, ""), NewFrame(2, "")],
             TransitionPolicy(Director, 2.5))
  }
}
