/** The keyframe render lifecycle of one frame (`generateFrameImages`,
    cineflow/App.tsx:170-237): guard, placeholder append, progress ticks,
    reconciliation of the settled candidates by identity token, and the
    quota error path. Each step is a transform of the current plan; the
    placeholder identities (from `crypto.randomUUID`) are parameters. */
module FrameImages {

  import opened Wrappers
  import opened Strings
  import opened Types

  /** What the guard at the top of `generateFrameImages` decides. */
  datatype RenderGuard = AlreadyRunning | AlreadyDone(url: string) | Render

  /** A frame that is rendering is left alone; a completed frame with images
      answers with its FIRST image's url (not its master image's). */
  function Guard(f: FrameSpec): (g: RenderGuard)
    ensures g.AlreadyRunning? <==> f.status == Generating
    ensures g.AlreadyDone? <==> f.status == Completed && |f.images| > 0
    ensures g.AlreadyDone? ==> g.url == f.images[0].url
  {
    if f.status == Generating then AlreadyRunning
    else if f.status == Completed && |f.images| > 0 then AlreadyDone(f.images[0].url)
    else Render
  }

  predicate Distinct(ids: seq<string>) {
    forall i, j :: 0 <= i < j < |ids| ==> ids[i] != ids[j]
  }

  /** The identities are pairwise distinct and used by no image of the frame. */
  predicate FreshFor(ids: seq<string>, images: seq<FrameImage>) {
    Distinct(ids) && forall i, k :: 0 <= i < |ids| && 0 <= k < |images| ==> ids[i] != images[k].id
  }

  function Placeholder(id: string, model: ImageModel): FrameImage {
    FrameImage(id, "", Generating, model, Some(5.0))
  }

  /** One placeholder per identity, in order. */
  function Placeholders(ids: seq<string>, model: ImageModel): (r: seq<FrameImage>)
    ensures |r| == |ids|
    ensures forall i :: 0 <= i < |ids| ==> r[i] == Placeholder(ids[i], model)
  {
    seq(|ids|, i requires 0 <= i < |ids| => Placeholder(ids[i], model))
  }

  /** The first state write (cineflow/App.tsx:179-183): the frame is marked
      generating and the placeholders go after its existing images. */
  function AppendPlaceholders(p: ClipPlan, fi: int, ph: seq<FrameImage>): (r: ClipPlan)
    requires 0 <= fi < |p.frames|
    ensures |r.frames| == |p.frames|
    ensures forall j :: 0 <= j < |p.frames| && j != fi ==> r.frames[j] == p.frames[j]
    ensures r.frames[fi].status == Generating
    ensures |r.frames[fi].images| == |p.frames[fi].images| + |ph|
    ensures r.frames[fi].images[..|p.frames[fi].images|] == p.frames[fi].images
    ensures r.frames[fi].images[|p.frames[fi].images|..] == ph
    ensures r.frames[fi] == p.frames[fi].(status := r.frames[fi].status, images := r.frames[fi].images)
    ensures r == p.(frames := r.frames)
  {
    var f := p.frames[fi];
    WithFrame(p, fi, f.(status := Generating, images := f.images + ph))
  }

  function Min(a: real, b: real): real {
    if a <= b then a else b
  }

  /** One tick of the synthetic progress timer on one image. */
  function TickImage(img: FrameImage): FrameImage {
    if img.status == Generating then img.(progress := Some(Min(95.0, img.progress.GetOr(0.0) + 2.0)))
    else img
  }

  /** One tick on frame `fi` (cineflow/App.tsx:186-192): every image of the
      frame goes through `TickImage`. */
  function Tick(p: ClipPlan, fi: int): (r: ClipPlan)
    requires 0 <= fi < |p.frames|
    ensures |r.frames| == |p.frames|
  {
    var f := p.frames[fi];
    var imgs := seq(|f.images|, k requires 0 <= k < |f.images| => TickImage(f.images[k]));
    WithFrame(p, fi, f.(images := imgs))
  }

  /** `n` ticks in a row. */
  function TickN(p: ClipPlan, fi: int, n: nat): (r: ClipPlan)
    requires 0 <= fi < |p.frames|
    ensures |r.frames| == |p.frames|
    decreases n
  {
    if n == 0 then p else Tick(TickN(p, fi, n - 1), fi)
  }

  /** An image after `n` ticks, in closed form: a generating image shows
      min(95, p + 2n) for its starting progress p (0 when missing); any other
      image, and any image before the first tick, is untouched. */
  function TickedImage(img: FrameImage, n: nat): (r: FrameImage)
    ensures r.(progress := img.progress) == img
    ensures img.status != Generating || n == 0 ==> r == img
  {
    if n == 0 || img.status != Generating then img
    else img.(progress := Some(Min(95.0, img.progress.GetOr(0.0) + 2.0 * n as real)))
  }

  /** Every image of a list after `n` ticks. */
  function TickedImages(imgs: seq<FrameImage>, n: nat): (r: seq<FrameImage>)
    ensures |r| == |imgs|
    ensures forall k :: 0 <= k < |imgs| ==> r[k] == TickedImage(imgs[k], n)
  {
    seq(|imgs|, k requires 0 <= k < |imgs| => TickedImage(imgs[k], n))
  }

  /** One more tick on the closed form is the closed form one step on. */
  lemma TickTicked(img: FrameImage, n: nat)
    ensures TickImage(TickedImage(img, n)) == TickedImage(img, n + 1)
  {
  }

  /** Replacing frame `fi` twice keeps only the second replacement. */
  lemma WithFrameTwice(p: ClipPlan, fi: int, f: FrameSpec, g: FrameSpec)
    requires 0 <= fi < |p.frames|
    ensures WithFrame(WithFrame(p, fi, f), fi, g) == WithFrame(p, fi, g)
  {
    assert p.frames[fi := f][fi := g] == p.frames[fi := g];
  }

  /** `n` ticks of the timer, stated without the loop: frame `fi`'s images
      become their closed forms and nothing else in the plan changes. */
  lemma {:induction false} TickNClosedForm(p: ClipPlan, fi: int, n: nat)
    requires 0 <= fi < |p.frames|
    ensures TickN(p, fi, n) == WithFrame(p, fi, p.frames[fi].(images := TickedImages(p.frames[fi].images, n)))
    decreases n
  {
    var f := p.frames[fi];
    if n == 0 {
      assert TickedImages(f.images, 0) == f.images;
      assert p.frames[fi := f] == p.frames;
    } else {
      TickNClosedForm(p, fi, n - 1);
      var q := TickN(p, fi, n - 1);
      var g := q.frames[fi];
      assert g == f.(images := TickedImages(f.images, n - 1));
      var imgs := seq(|g.images|, k requires 0 <= k < |g.images| => TickImage(g.images[k]));
      forall k | 0 <= k < |f.images|
        ensures imgs[k] == TickedImage(f.images[k], n)
      {
        TickTicked(f.images[k], n - 1);
      }
      assert imgs == TickedImages(f.images, n);
      WithFrameTwice(p, fi, g, g.(images := imgs));
    }
  }

  /** A generating image's progress stays within [0, 95] and never
      decreases under a tick, once it starts within that range. */
  lemma TickMonotoneBounded(img: FrameImage)
    requires img.status == Generating && img.progress.Some?
    requires 0.0 <= img.progress.value <= 95.0
    ensures TickImage(img).status == Generating && TickImage(img).progress.Some?
    ensures img.progress.value <= TickImage(img).progress.value <= 95.0
  {
  }

  /** After `n` ticks a fresh placeholder (seeded at 5) of frame `fi` shows
      min(95, 5 + 2n), and its identity, url and status are untouched. */
  lemma TickNFromPlaceholder(p: ClipPlan, fi: int, k: int, n: nat)
    requires 0 <= fi < |p.frames| && 0 <= k < |p.frames[fi].images|
    requires p.frames[fi].images[k].status == Generating
    requires p.frames[fi].images[k].progress == Some(5.0)
    ensures |TickN(p, fi, n).frames[fi].images| == |p.frames[fi].images|
    ensures TickN(p, fi, n).frames[fi].images[k]
            == p.frames[fi].images[k].(progress := Some(Min(95.0, 5.0 + 2.0 * n as real)))
  {
    TickNClosedForm(p, fi, n);
  }

  /** The final image for one candidate: completed with its url when the url
      is truthy, an error image with url "" otherwise; progress 100. */
  function Settle(id: string, url: Option<string>, model: ImageModel): (img: FrameImage)
    ensures img.id == id && img.modelId == model && img.progress == Some(100.0)
    ensures img.status == Completed <==> Truthy(url)
    ensures img.status == Completed || img.status == Error
    ensures img.status == Completed ==> img.url == url.value
    ensures img.status == Error ==> img.url == ""
  {
    if Truthy(url) then FrameImage(id, url.value, Completed, model, Some(100.0))
    else FrameImage(id, "", Error, model, Some(100.0))
  }

  /** `findIndex(img => img.id === id)`, absent when no image has that id. */
  function FirstIndex(images: seq<FrameImage>, id: string): (r: Option<nat>)
    ensures r.Some? ==> r.value < |images| && images[r.value].id == id
                        && forall m :: 0 <= m < r.value ==> images[m].id != id
    ensures r.None? ==> forall m :: 0 <= m < |images| ==> images[m].id != id
  {
    if |images| == 0 then None
    else if images[0].id == id then Some(0)
    else match FirstIndex(images[1..], id)
      case None => None
      case Some(k) => Some(k + 1)
  }

  /** Only identities matter to `FirstIndex`. */
  lemma FirstIndexSameIds(a: seq<FrameImage>, b: seq<FrameImage>, id: string)
    requires |a| == |b| && forall k :: 0 <= k < |a| ==> a[k].id == b[k].id
    ensures FirstIndex(a, id) == FirstIndex(b, id)
  {
    var ra, rb := FirstIndex(a, id), FirstIndex(b, id);
    if ra.Some? {
      assert b[ra.value].id == id;
    }
    if rb.Some? {
      assert a[rb.value].id == id;
    }
  }

  /** One step of the reconciliation loop (cineflow/App.tsx:218-219): the
      first image with `img`'s identity is replaced by `img`; identities stay
      where they were. */
  function ReplaceById(images: seq<FrameImage>, img: FrameImage): (r: seq<FrameImage>)
    ensures |r| == |images|
    ensures forall k :: 0 <= k < |images| ==> r[k].id == images[k].id
    ensures FirstIndex(images, img.id).Some? ==> r[FirstIndex(images, img.id).value] == img
    ensures forall k :: 0 <= k < |images| && FirstIndex(images, img.id) != Some(k) ==> r[k] == images[k]
  {
    match FirstIndex(images, img.id)
    case None => images
    case Some(k) => images[k := img]
  }

  /** The whole reconciliation loop over the settled images, in placeholder
      order. */
  function ReplaceAll(images: seq<FrameImage>, settled: seq<FrameImage>): (r: seq<FrameImage>)
    ensures |r| == |images|
    ensures forall k :: 0 <= k < |images| ==> r[k].id == images[k].id
    decreases |settled|
  {
    if |settled| == 0 then images
    else ReplaceById(ReplaceAll(images, settled[..|settled| - 1]), settled[|settled| - 1])
  }

  /** Position `k` holds the first occurrence of its identity. */
  predicate FirstOccurrence(images: seq<FrameImage>, k: int)
    requires 0 <= k < |images|
  {
    FirstIndex(images, images[k].id) == Some(k)
  }

  /** Index of the last settled image with identity `id`. */
  function LastWithId(settled: seq<FrameImage>, id: string): (r: Option<nat>)
    ensures r.Some? ==> r.value < |settled| && settled[r.value].id == id
                        && forall j :: r.value < j < |settled| ==> settled[j].id != id
    ensures r.None? ==> forall j :: 0 <= j < |settled| ==> settled[j].id != id
    decreases |settled|
  {
    if |settled| == 0 then None
    else if settled[|settled| - 1].id == id then Some(|settled| - 1)
    else LastWithId(settled[..|settled| - 1], id)
  }

  /** What the reconciliation loop leaves at each position, stated without
      the loop: the first image carrying an identity becomes the last settled
      image with that identity; every other image is untouched. */
  lemma {:induction false} ReplaceAllAt(images: seq<FrameImage>, settled: seq<FrameImage>, k: int)
    requires 0 <= k < |images|
    ensures var w := LastWithId(settled, images[k].id);
            ReplaceAll(images, settled)[k]
            == if FirstOccurrence(images, k) && w.Some? then settled[w.value] else images[k]
    decreases |settled|
  {
    if |settled| > 0 {
      var n := |settled| - 1;
      var last := settled[n];
      var before := ReplaceAll(images, settled[..n]);
      assert ReplaceAll(images, settled) == ReplaceById(before, last);
      ReplaceAllAt(images, settled[..n], k);
      FirstIndexSameIds(images, before, last.id);
      if last.id == images[k].id {
        assert LastWithId(settled, images[k].id) == Some(n);
      } else {
        assert before[k].id != last.id;
        assert ReplaceById(before, last)[k] == before[k];
        var w := LastWithId(settled[..n], images[k].id);
        assert LastWithId(settled, images[k].id) == w;
        if w.Some? {
          assert settled[..n][w.value] == settled[w.value];
        }
      }
    }
  }

  /** With distinct identities, the last settled image with the identity of
      the `j`-th one is the `j`-th one. */
  lemma LastWithIdDistinct(settled: seq<FrameImage>, ids: seq<string>, j: int)
    requires |settled| == |ids| && Distinct(ids)
    requires forall i :: 0 <= i < |ids| ==> settled[i].id == ids[i]
    requires 0 <= j < |settled|
    ensures LastWithId(settled, ids[j]) == Some(j)
  {
  }

  /** How one candidate settled: a url (possibly missing) or a thrown error. */
  datatype Candidate = Rendered(url: Option<string>) | Threw(message: string)

  /** The App-level quota check (cineflow/App.tsx:204, 229). */
  predicate IsQuotaMessage(m: string) {
    Contains(m, "QUOTA_EXHAUSTED")
  }

  /** The per-candidate `.catch` (cineflow/App.tsx:203-206): a quota error is
      rethrown, any other error becomes a missing url. */
  function CatchCandidate(c: Candidate): (r: Candidate)
    ensures r.Threw? <==> c.Threw? && IsQuotaMessage(c.message)
    ensures r.Threw? ==> r == c
    ensures c.Rendered? ==> r == c
    ensures c.Threw? && !IsQuotaMessage(c.message) ==> r == Rendered(None)
  {
    match c
    case Rendered(_) => c
    case Threw(m) => if IsQuotaMessage(m) then c else Rendered(None)
  }

  /** The message of the first candidate whose error survives the catch, if
      any: `Promise.all` rejects with one of them. */
  function FirstQuotaFailure(cs: seq<Candidate>): (r: Option<string>)
    ensures r.Some? ==> IsQuotaMessage(r.value)
                        && exists j :: 0 <= j < |cs| && cs[j] == Threw(r.value)
    ensures r.None? <==> forall j :: 0 <= j < |cs| ==> CatchCandidate(cs[j]).Rendered?
  {
    if |cs| == 0 then None
    else if cs[0].Threw? && IsQuotaMessage(cs[0].message) then Some(cs[0].message)
    else
      var rest := FirstQuotaFailure(cs[1..]);
      assert forall j :: 1 <= j < |cs| ==> cs[j] == cs[1..][j - 1];
      rest
  }

  /** The settled image of every candidate, in placeholder order
      (cineflow/App.tsx:210-212). */
  function SettledImages(ids: seq<string>, cs: seq<Candidate>, model: ImageModel): (r: seq<FrameImage>)
    requires |ids| == |cs|
    requires forall j :: 0 <= j < |cs| ==> CatchCandidate(cs[j]).Rendered?
    ensures |r| == |ids|
    ensures forall j :: 0 <= j < |ids| ==> r[j] == Settle(ids[j], CatchCandidate(cs[j]).url, model)
  {
    seq(|ids|, j requires 0 <= j < |ids| => Settle(ids[j], CatchCandidate(cs[j]).url, model))
  }

  /** The success write (cineflow/App.tsx:214-225): placeholders reconciled by
      identity, the frame completed, and the selected index set to the LAST
      index of the whole list, whatever the candidates' outcomes. */
  function Reconcile(p: ClipPlan, fi: int, settled: seq<FrameImage>): (r: ClipPlan)
    requires 0 <= fi < |p.frames|
    ensures |r.frames| == |p.frames|
    ensures forall j :: 0 <= j < |p.frames| && j != fi ==> r.frames[j] == p.frames[j]
    ensures r == p.(frames := r.frames)
    ensures r.frames[fi].status == Completed
    ensures |r.frames[fi].images| == |p.frames[fi].images|
    ensures r.frames[fi].selectedImageIndex == |p.frames[fi].images| - 1
    ensures forall k :: 0 <= k < |p.frames[fi].images| ==> r.frames[fi].images[k].id == p.frames[fi].images[k].id
    ensures r.frames[fi] == p.frames[fi].(status := Completed, images := r.frames[fi].images,
                                          selectedImageIndex := r.frames[fi].selectedImageIndex)
  {
    var f := p.frames[fi];
    var imgs := ReplaceAll(f.images, settled);
    WithFrame(p, fi, f.(status := Completed, images := imgs, selectedImageIndex := |imgs| - 1))
  }

  /** The error write (cineflow/App.tsx:230-234): only the frame's status
      changes; placeholders stay as they were. */
  function MarkFailed(p: ClipPlan, fi: int): (r: ClipPlan)
    requires 0 <= fi < |p.frames|
    ensures |r.frames| == |p.frames|
    ensures forall j :: 0 <= j < |p.frames| && j != fi ==> r.frames[j] == p.frames[j]
    ensures r.frames[fi] == p.frames[fi].(status := Error)
    ensures r == p.(frames := r.frames)
  {
    WithFrame(p, fi, p.frames[fi].(status := Error))
  }

  /** The end state of one call and what it returns (a url, `null`, or the
      rethrown error). */
  datatype RenderRun = RenderRun(plan: ClipPlan, result: Result<Option<string>>)

  /** The plan just before settlement: placeholders appended, then `ticks`
      timer ticks. */
  function Pending(p: ClipPlan, fi: int, ids: seq<string>, ticks: nat): (r: ClipPlan)
    requires 0 <= fi < |p.frames|
    ensures |r.frames| == |p.frames|
  {
    TickN(AppendPlaceholders(p, fi, Placeholders(ids, p.frames[fi].imageModel)), fi, ticks)
  }

  /** One whole call of `generateFrameImages` on frame `fi`, when nothing else
      writes to the plan in between: guard, placeholders with the given
      identities, `ticks` timer ticks, then the candidates' settlement. An
      index with no frame (a selection left over from a removed frame)
      raises a TypeError on reading the frame's status, before any write. */
  function GenerateFrameImages(p: ClipPlan, fi: int, ids: seq<string>, ticks: nat,
                               cs: seq<Candidate>): (run: RenderRun)
    requires 0 <= fi < |p.frames| ==> |ids| == p.frames[fi].candidateCount == |cs|
    requires 0 <= fi < |p.frames| ==> FreshFor(ids, p.frames[fi].images)
    ensures !(0 <= fi < |p.frames|) ==> run == RenderRun(p, Err(TypeErrorMessage))
    ensures |run.plan.frames| == |p.frames|
    ensures run.result.Err? && 0 <= fi < |p.frames| ==>
              FirstQuotaFailure(cs) == Some(run.result.message) && run.plan.frames[fi].status == Error
  {
    if !(0 <= fi < |p.frames|) then RenderRun(p, Err(TypeErrorMessage))
    else
      var f := p.frames[fi];
      match Guard(f)
      case AlreadyRunning => RenderRun(p, Ok(None))
      case AlreadyDone(url) => RenderRun(p, Ok(Some(url)))
      case Render =>
        var p2 := Pending(p, fi, ids, ticks);
        match FirstQuotaFailure(cs)
        case Some(m) => RenderRun(MarkFailed(p2, fi), Err(m))
        case None =>
          var settled := SettledImages(ids, cs, f.imageModel);
          var first := if |settled| > 0 then Some(settled[0].url) else None;
          RenderRun(Reconcile(p2, fi, settled), Ok(first))
  }

  /** A frame already rendering, or completed with images, is not touched. */
  lemma GuardedFrameUnchanged(p: ClipPlan, fi: int, ids: seq<string>, ticks: nat, cs: seq<Candidate>)
    requires 0 <= fi < |p.frames|
    requires |ids| == p.frames[fi].candidateCount == |cs|
    requires FreshFor(ids, p.frames[fi].images)
    requires p.frames[fi].status == Generating
             || (p.frames[fi].status == Completed && |p.frames[fi].images| > 0)
    ensures GenerateFrameImages(p, fi, ids, ticks, cs).plan == p
    ensures GenerateFrameImages(p, fi, ids, ticks, cs).result.Ok?
  {
  }

  /** The pending images of a frame, stated without the timer loop: the
      older images and then one placeholder per identity, each after
      `ticks` ticks. */
  function PendingImages(old_: seq<FrameImage>, ids: seq<string>, model: ImageModel, ticks: nat): (r: seq<FrameImage>)
    ensures |r| == |old_| + |ids|
    ensures forall k :: 0 <= k < |old_| ==> r[k] == TickedImage(old_[k], ticks)
    ensures forall k :: |old_| <= k < |r| ==> r[k] == TickedImage(Placeholder(ids[k - |old_|], model), ticks)
  {
    TickedImages(old_ + Placeholders(ids, model), ticks)
  }

  /** The plan just before settlement, in closed form: frame `fi` is
      generating and holds its pending images; nothing else changes. */
  lemma PendingClosedForm(p: ClipPlan, fi: int, ids: seq<string>, ticks: nat)
    requires 0 <= fi < |p.frames|
    ensures var f := p.frames[fi];
            Pending(p, fi, ids, ticks)
            == WithFrame(p, fi, f.(status := Generating,
                                   images := PendingImages(f.images, ids, f.imageModel, ticks)))
  {
    var f := p.frames[fi];
    var p1 := AppendPlaceholders(p, fi, Placeholders(ids, f.imageModel));
    var f1 := f.(status := Generating, images := f.images + Placeholders(ids, f.imageModel));
    assert p1 == WithFrame(p, fi, f1);
    TickNClosedForm(p1, fi, ticks);
    WithFrameTwice(p, fi, f1, f1.(images := TickedImages(f1.images, ticks)));
  }

  /** In the pending images the older images keep their identities, each
      placeholder carries its own, and, the identities being fresh, no older
      image carries any of them. */
  lemma PendingIds(old_: seq<FrameImage>, ids: seq<string>, model: ImageModel, ticks: nat)
    requires FreshFor(ids, old_)
    ensures var imgs := PendingImages(old_, ids, model, ticks);
            var n := |old_|;
            |imgs| == n + |ids| && Distinct(ids)
            && (forall k :: n <= k < |imgs| ==> imgs[k].id == ids[k - n])
            && (forall m, i :: 0 <= m < n && 0 <= i < |ids| ==> imgs[m].id != ids[i])
  {
    var imgs := PendingImages(old_, ids, model, ticks);
    forall m, i | 0 <= m < |old_| && 0 <= i < |ids|
      ensures imgs[m].id != ids[i]
    {
      assert imgs[m].id == old_[m].id;
    }
  }

  /** Reconciling by identity leaves an image alone when no settled image
      carries its identity. */
  lemma ReconcileKeepsOlder(imgs: seq<FrameImage>, n: nat, ids: seq<string>, settled: seq<FrameImage>, k: int)
    requires |imgs| == n + |ids| && |settled| == |ids|
    requires forall j :: 0 <= j < |ids| ==> settled[j].id == ids[j]
    requires 0 <= k < n
    requires forall j :: 0 <= j < |ids| ==> imgs[k].id != ids[j]
    ensures ReplaceAll(imgs, settled)[k] == imgs[k]
  {
    ReplaceAllAt(imgs, settled, k);
    assert LastWithId(settled, imgs[k].id).None?;
  }

  /** Reconciling by identity when the settled images carry fresh, distinct
      identities that label positions n, n+1, ... of the list: position
      n + j becomes settled image j. */
  lemma ReconcileFillsPlaceholder(imgs: seq<FrameImage>, n: nat, ids: seq<string>, settled: seq<FrameImage>, k: int)
    requires |imgs| == n + |ids| && |settled| == |ids| && Distinct(ids)
    requires forall i :: 0 <= i < |ids| ==> settled[i].id == ids[i]
    requires forall k :: n <= k < |imgs| ==> imgs[k].id == ids[k - n]
    requires forall m, i :: 0 <= m < n && 0 <= i < |ids| ==> imgs[m].id != ids[i]
    requires n <= k < |imgs|
    ensures ReplaceAll(imgs, settled)[k] == settled[k - n]
  {
    var j := k - n;
    assert imgs[k].id == ids[j];
    forall m | n <= m < k
      ensures imgs[m].id != ids[j]
    {
      assert imgs[m].id == ids[m - n];
      assert m - n != j;
    }
    assert FirstOccurrence(imgs, k);
    LastWithIdDistinct(settled, ids, j);
    ReplaceAllAt(imgs, settled, k);
  }


  /** After a successful render the frame's images are its pending images
      reconciled with the settled candidates. */
  lemma SuccessImages(p: ClipPlan, fi: int, ids: seq<string>, ticks: nat, cs: seq<Candidate>)
    requires 0 <= fi < |p.frames|
    requires |ids| == p.frames[fi].candidateCount == |cs|
    requires FreshFor(ids, p.frames[fi].images)
    requires Guard(p.frames[fi]).Render?
    requires FirstQuotaFailure(cs).None?
    ensures var f := p.frames[fi];
            GenerateFrameImages(p, fi, ids, ticks, cs).plan.frames[fi].images
            == ReplaceAll(PendingImages(f.images, ids, f.imageModel, ticks),
                          SettledImages(ids, cs, f.imageModel))
  {
    var f := p.frames[fi];
    var p2 := Pending(p, fi, ids, ticks);
    PendingClosedForm(p, fi, ids, ticks);
    var settled := SettledImages(ids, cs, f.imageModel);
    var first := if |settled| > 0 then Some(settled[0].url) else None;
    assert GenerateFrameImages(p, fi, ids, ticks, cs) == RenderRun(Reconcile(p2, fi, settled), Ok(first));
  }

  /** When no candidate hits the quota, the call returns normally with the
      first candidate's final url ("" when it failed), and the frame ends
      completed, one image longer per placeholder, with the selected index on
      the LAST image; no other frame and no other field changes. */
  lemma RenderSuccess(p: ClipPlan, fi: int, ids: seq<string>, ticks: nat, cs: seq<Candidate>)
    requires 0 <= fi < |p.frames|
    requires |ids| == p.frames[fi].candidateCount == |cs|
    requires FreshFor(ids, p.frames[fi].images)
    requires Guard(p.frames[fi]).Render?
    requires FirstQuotaFailure(cs).None?
    ensures var run := GenerateFrameImages(p, fi, ids, ticks, cs);
            run.result.Ok?
            && (|cs| == 0 ==> run.result.value == None)
            && (|cs| > 0 ==> run.result.value == Some(Settle(ids[0], CatchCandidate(cs[0]).url, p.frames[fi].imageModel).url))
    ensures var r := GenerateFrameImages(p, fi, ids, ticks, cs).plan;
            && r == p.(frames := r.frames)
            && |r.frames| == |p.frames|
            && (forall j :: 0 <= j < |p.frames| && j != fi ==> r.frames[j] == p.frames[j])
    ensures var f := GenerateFrameImages(p, fi, ids, ticks, cs).plan.frames[fi];
            && f == p.frames[fi].(status := Completed, images := f.images,
                                  selectedImageIndex := |p.frames[fi].images| + |ids| - 1)
            && |f.images| == |p.frames[fi].images| + |ids|
  {
    var f := p.frames[fi];
    var p2 := Pending(p, fi, ids, ticks);
    PendingClosedForm(p, fi, ids, ticks);
    var settled := SettledImages(ids, cs, f.imageModel);
    var first := if |settled| > 0 then Some(settled[0].url) else None;
    assert GenerateFrameImages(p, fi, ids, ticks, cs) == RenderRun(Reconcile(p2, fi, settled), Ok(first));
  }

  /** After a successful render the older images keep identity, url and
      status; only an older image still marked generating (a placeholder
      left by an earlier quota failure) has its progress advanced by the
      ticks. */
  lemma RenderSuccessOldImages(p: ClipPlan, fi: int, ids: seq<string>, ticks: nat, cs: seq<Candidate>)
    requires 0 <= fi < |p.frames|
    requires |ids| == p.frames[fi].candidateCount == |cs|
    requires FreshFor(ids, p.frames[fi].images)
    requires Guard(p.frames[fi]).Render?
    requires FirstQuotaFailure(cs).None?
    ensures var imgs := GenerateFrameImages(p, fi, ids, ticks, cs).plan.frames[fi].images;
            var old_ := p.frames[fi].images;
            |imgs| == |old_| + |ids|
            && (forall k :: 0 <= k < |old_| ==> imgs[k] == TickedImage(old_[k], ticks))
  {
    SuccessImages(p, fi, ids, ticks, cs);
    OlderSurvive(p.frames[fi].images, ids, ticks, SettledImages(ids, cs, p.frames[fi].imageModel),
                 p.frames[fi].imageModel);
  }

  /** Reconciling the pending images leaves the older ones as the ticks left
      them. */
  lemma OlderSurvive(old_: seq<FrameImage>, ids: seq<string>, ticks: nat, settled: seq<FrameImage>,
                     model: ImageModel)
    requires FreshFor(ids, old_)
    requires |settled| == |ids| && forall i :: 0 <= i < |ids| ==> settled[i].id == ids[i]
    ensures var imgs := PendingImages(old_, ids, model, ticks);
            |ReplaceAll(imgs, settled)| == |old_| + |ids|
            && forall k :: 0 <= k < |old_| ==> ReplaceAll(imgs, settled)[k] == TickedImage(old_[k], ticks)
  {
    var imgs := PendingImages(old_, ids, model, ticks);
    PendingIds(old_, ids, model, ticks);
    forall k | 0 <= k < |old_|
      ensures ReplaceAll(imgs, settled)[k] == imgs[k]
    {
      ReconcileKeepsOlder(imgs, |old_|, ids, settled, k);
    }
  }

  /** After a successful render the images after the older ones are, in
      placeholder order, the candidates' final images: image j carries
      placeholder j's identity and is completed with candidate j's url, or
      is an error image. */
  lemma RenderSuccessNewImages(p: ClipPlan, fi: int, ids: seq<string>, ticks: nat, cs: seq<Candidate>)
    requires 0 <= fi < |p.frames|
    requires |ids| == p.frames[fi].candidateCount == |cs|
    requires FreshFor(ids, p.frames[fi].images)
    requires Guard(p.frames[fi]).Render?
    requires FirstQuotaFailure(cs).None?
    ensures var imgs := GenerateFrameImages(p, fi, ids, ticks, cs).plan.frames[fi].images;
            |imgs| == |p.frames[fi].images| + |ids|
            && imgs[|p.frames[fi].images|..] == SettledImages(ids, cs, p.frames[fi].imageModel)
  {
    SuccessImages(p, fi, ids, ticks, cs);
    PlaceholdersFilled(p.frames[fi].images, ids, ticks, SettledImages(ids, cs, p.frames[fi].imageModel),
                       p.frames[fi].imageModel);
  }

  /** Reconciling the pending images puts settled image j at position n + j. */
  lemma PlaceholdersFilled(old_: seq<FrameImage>, ids: seq<string>, ticks: nat, settled: seq<FrameImage>,
                           model: ImageModel)
    requires FreshFor(ids, old_)
    requires |settled| == |ids| && forall i :: 0 <= i < |ids| ==> settled[i].id == ids[i]
    ensures var r := ReplaceAll(PendingImages(old_, ids, model, ticks), settled);
            |r| == |old_| + |ids| && r[|old_|..] == settled
  {
    var imgs := PendingImages(old_, ids, model, ticks);
    var n := |old_|;
    forall k | n <= k < n + |ids|
      ensures ReplaceAll(imgs, settled)[k] == settled[k - n]
    {
      PendingFillsPlaceholder(old_, ids, model, ticks, settled, k);
    }
    TailEquals(ReplaceAll(imgs, settled), n, settled);
  }

  lemma PendingFillsPlaceholder(old_: seq<FrameImage>, ids: seq<string>, model: ImageModel, ticks: nat,
                                settled: seq<FrameImage>, k: int)
    requires FreshFor(ids, old_)
    requires |settled| == |ids| && forall i :: 0 <= i < |ids| ==> settled[i].id == ids[i]
    requires |old_| <= k < |old_| + |ids|
    ensures |ReplaceAll(PendingImages(old_, ids, model, ticks), settled)| == |old_| + |ids|
    ensures ReplaceAll(PendingImages(old_, ids, model, ticks), settled)[k] == settled[k - |old_|]
  {
    PendingIds(old_, ids, model, ticks);
    ReconcileFillsPlaceholder(PendingImages(old_, ids, model, ticks), |old_|, ids, settled, k);
  }

  lemma TailEquals(r: seq<FrameImage>, n: nat, s: seq<FrameImage>)
    requires |r| == n + |s|
    requires forall k :: n <= k < |r| ==> r[k] == s[k - n]
    ensures r[n..] == s
  {
  }

  /** On a quota failure the frame is marked `error`, its placeholders are
      never reconciled (they stay generating with url ""), the error is
      rethrown, and nothing else changes. */
  lemma RenderQuotaFailure(p: ClipPlan, fi: int, ids: seq<string>, ticks: nat, cs: seq<Candidate>)
    requires 0 <= fi < |p.frames|
    requires |ids| == p.frames[fi].candidateCount == |cs|
    requires FreshFor(ids, p.frames[fi].images)
    requires Guard(p.frames[fi]).Render?
    requires exists j :: 0 <= j < |cs| && cs[j].Threw? && IsQuotaMessage(cs[j].message)
    ensures var run := GenerateFrameImages(p, fi, ids, ticks, cs);
            run.result.Err? && IsQuotaMessage(run.result.message)
    ensures var r := GenerateFrameImages(p, fi, ids, ticks, cs).plan;
            var f := p.frames[fi];
            r == WithFrame(p, fi, f.(status := Error, images := PendingImages(f.images, ids, f.imageModel, ticks)))
  {
    var j :| 0 <= j < |cs| && cs[j].Threw? && IsQuotaMessage(cs[j].message);
    assert CatchCandidate(cs[j]).Threw?;
    var f := p.frames[fi];
    PendingClosedForm(p, fi, ids, ticks);
    var p2 := Pending(p, fi, ids, ticks);
    var m := FirstQuotaFailure(cs).value;
    assert GenerateFrameImages(p, fi, ids, ticks, cs) == RenderRun(MarkFailed(p2, fi), Err(m));
    WithFrameTwice(p, fi, p2.frames[fi], p2.frames[fi].(status := Error));
  }

  /** The placeholders a quota failure leaves behind are still generating
      with url "" and their identities, so the frame can be rendered again
      (its status is `error`) and the stale placeholders keep ticking. */
  lemma StalePlaceholders(old_: seq<FrameImage>, ids: seq<string>, model: ImageModel, ticks: nat)
    ensures var imgs := PendingImages(old_, ids, model, ticks);
            forall k :: |old_| <= k < |imgs| ==>
              imgs[k].id == ids[k - |old_|] && imgs[k].url == "" && imgs[k].status == Generating
  {
  }

  /** One call's effect on its own frame alone, and its outcome. */
  function RenderFrame(f: FrameSpec, ids: seq<string>, ticks: nat, cs: seq<Candidate>): (r: (FrameSpec, Result<Option<string>>))
    requires |ids| == f.candidateCount == |cs|
    ensures !Guard(f).Render? ==> r.0 == f && r.1.Ok?
    ensures Guard(f).Render? ==> |r.0.images| == |f.images| + |ids|
    ensures r.1.Err? <==> Guard(f).Render? && FirstQuotaFailure(cs).Some?
    ensures r.1.Err? ==> r.1.message == FirstQuotaFailure(cs).value && r.0.status == Error
    ensures Guard(f).Render? && r.1.Ok? ==>
              r.0.status == Completed && r.0.selectedImageIndex == |r.0.images| - 1
  {
    match Guard(f)
    case AlreadyRunning => (f, Ok(None))
    case AlreadyDone(url) => (f, Ok(Some(url)))
    case Render =>
      var f2 := f.(status := Generating, images := PendingImages(f.images, ids, f.imageModel, ticks));
      match FirstQuotaFailure(cs)
      case Some(m) => (f2.(status := Error), Err(m))
      case None =>
        var settled := SettledImages(ids, cs, f.imageModel);
        var imgs := ReplaceAll(f2.images, settled);
        (f2.(status := Completed, images := imgs, selectedImageIndex := |imgs| - 1),
         Ok(if |settled| > 0 then Some(settled[0].url) else None))
  }

  /** A call writes to its own frame only, and what it writes and returns
      depends on that frame alone: so calls on different frames commute. */
  lemma RenderIsLocal(p: ClipPlan, fi: int, ids: seq<string>, ticks: nat, cs: seq<Candidate>)
    requires 0 <= fi < |p.frames|
    requires |ids| == p.frames[fi].candidateCount == |cs|
    requires FreshFor(ids, p.frames[fi].images)
    ensures GenerateFrameImages(p, fi, ids, ticks, cs).plan == WithFrame(p, fi, RenderFrame(p.frames[fi], ids, ticks, cs).0)
    ensures GenerateFrameImages(p, fi, ids, ticks, cs).result == RenderFrame(p.frames[fi], ids, ticks, cs).1
  {
    var f := p.frames[fi];
    if Guard(f).Render? {
      if FirstQuotaFailure(cs).Some? {
        RenderLocalFailed(p, fi, ids, ticks, cs);
      } else {
        RenderLocalSettled(p, fi, ids, ticks, cs);
      }
    } else {
      assert p.frames[fi := f] == p.frames;
    }
  }

  lemma RenderLocalFailed(p: ClipPlan, fi: int, ids: seq<string>, ticks: nat, cs: seq<Candidate>)
    requires 0 <= fi < |p.frames|
    requires |ids| == p.frames[fi].candidateCount == |cs|
    requires FreshFor(ids, p.frames[fi].images)
    requires Guard(p.frames[fi]).Render? && FirstQuotaFailure(cs).Some?
    ensures var run := GenerateFrameImages(p, fi, ids, ticks, cs);
            var (g, res) := RenderFrame(p.frames[fi], ids, ticks, cs);
            run.plan == WithFrame(p, fi, g) && run.result == res
  {
    var f := p.frames[fi];
    PendingClosedForm(p, fi, ids, ticks);
    var f2 := f.(status := Generating, images := PendingImages(f.images, ids, f.imageModel, ticks));
    WithFrameTwice(p, fi, f2, f2.(status := Error));
  }

  lemma RenderLocalSettled(p: ClipPlan, fi: int, ids: seq<string>, ticks: nat, cs: seq<Candidate>)
    requires 0 <= fi < |p.frames|
    requires |ids| == p.frames[fi].candidateCount == |cs|
    requires FreshFor(ids, p.frames[fi].images)
    requires Guard(p.frames[fi]).Render? && FirstQuotaFailure(cs).None?
    ensures var run := GenerateFrameImages(p, fi, ids, ticks, cs);
            var (g, res) := RenderFrame(p.frames[fi], ids, ticks, cs);
            run.plan == WithFrame(p, fi, g) && run.result == res
  {
    var f := p.frames[fi];
    PendingClosedForm(p, fi, ids, ticks);
    var f2 := f.(status := Generating, images := PendingImages(f.images, ids, f.imageModel, ticks));
    var settled := SettledImages(ids, cs, f.imageModel);
    var imgs := ReplaceAll(f2.images, settled);
    var p2 := Pending(p, fi, ids, ticks);
    var g := f2.(status := Completed, images := imgs, selectedImageIndex := |imgs| - 1);
    assert p2 == WithFrame(p, fi, f2);
    assert p2.frames[fi] == f2;
    assert RenderFrame(f, ids, ticks, cs).0 == g;
    assert GenerateFrameImages(p, fi, ids, ticks, cs).plan == Reconcile(p2, fi, settled);
    ReconcileAsWrite(p2, fi, f2, settled, g);
    WithFrameTwice(p, fi, f2, g);
  }

  lemma ReconcileAsWrite(p: ClipPlan, fi: int, f: FrameSpec, settled: seq<FrameImage>, g: FrameSpec)
    requires 0 <= fi < |p.frames| && p.frames[fi] == f
    requires g == f.(status := Completed, images := ReplaceAll(f.images, settled),
                     selectedImageIndex := |ReplaceAll(f.images, settled)| - 1)
    ensures Reconcile(p, fi, settled) == WithFrame(p, fi, g)
  {
  }
}
