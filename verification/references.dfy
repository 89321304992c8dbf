/** The small editor transforms around the storyboard: the reference-image
    list with its cap of four (`processFiles`, the search-grounded
    inspiration and the remove button, cineflow/App.tsx:115-141, 494), the
    frame-level upload, master-image selection and removal
    (cineflow/App.tsx:511, 514, 520-529), and the stitch button's selection
    (cineflow/App.tsx:421-427). */
module References {

  import opened Wrappers
  import opened Strings
  import opened Types
  import opened Transitions

  /** The most reference images the editor keeps. */
  const MaxReferences: nat := 4

  function MinNat(a: nat, b: nat): nat {
    if a <= b then a else b
  }

  /** The end position JavaScript's `slice(0, end)` uses on a list of
      length `len`: a negative end counts from the back. */
  function SliceEnd(len: nat, end: int): (k: nat)
    ensures k <= len
    ensures end >= 0 ==> k == MinNat(end, len)
    ensures end < 0 ==> k == (if len + end < 0 then 0 else len + end)
  {
    if end >= 0 then MinNat(end, len) else if len + end < 0 then 0 else len + end
  }

  /** A dropped or pasted file: its MIME type and what reading and
      down-scaling it yields (an error when the file cannot be read). */
  datatype DroppedFile = DroppedFile(mimeType: string, processed: Result<string>)

  predicate IsImageFile(f: DroppedFile) {
    StartsWith(f.mimeType, "image/")
  }

  /** The image files, in order. */
  function ImageFiles(files: seq<DroppedFile>): (r: seq<DroppedFile>)
    ensures |r| <= |files|
    ensures forall k :: 0 <= k < |r| ==> IsImageFile(r[k]) && r[k] in files
    ensures (forall k :: 0 <= k < |files| ==> IsImageFile(files[k])) ==> r == files
    ensures (forall k :: 0 <= k < |files| ==> !IsImageFile(files[k])) ==> r == []
  {
    if |files| == 0 then []
    else
      var rest := ImageFiles(files[1..]);
      if IsImageFile(files[0]) then [files[0]] + rest else rest
  }

  /** The images that read successfully, in order. */
  function Processed(files: seq<DroppedFile>): (r: seq<string>)
    ensures |r| <= |files|
  {
    if |files| == 0 then []
    else if files[0].processed.Ok? then [files[0].processed.value] + Processed(files[1..])
    else Processed(files[1..])
  }

  /** The files added one at a time, each append guarded by the cap; a
      file that fails to read is skipped. */
  function AppendCapped(prev: seq<string>, files: seq<DroppedFile>): (r: seq<string>)
    ensures |prev| <= |r| && r[..|prev|] == prev
    ensures |prev| <= MaxReferences ==> |r| <= MaxReferences
    ensures |prev| >= MaxReferences ==> r == prev
    decreases |files|
  {
    if |files| == 0 then prev
    else
      var next := if files[0].processed.Ok? && |prev| < MaxReferences then prev + [files[0].processed.value] else prev;
      assert next[..|prev|] == prev;
      AppendCapped(next, files[1..])
  }

  /** The cap taken on a concatenation: its first four entries, or all of
      it when shorter. */
  function Capped(s: seq<string>): (r: seq<string>)
    ensures |r| == MinNat(MaxReferences, |s|) && r == s[..|r|]
  {
    s[..MinNat(MaxReferences, |s|)]
  }

  /** Appending one at a time under the guard is the same as taking the
      first four of the old list followed by every image that read. */
  lemma {:induction false} AppendCappedIsCapped(prev: seq<string>, files: seq<DroppedFile>)
    requires |prev| <= MaxReferences
    ensures AppendCapped(prev, files) == Capped(prev + Processed(files))
    decreases |files|
  {
    if |files| > 0 {
      var rest := files[1..];
      if files[0].processed.Ok? {
        var v := files[0].processed.value;
        assert prev + Processed(files) == (prev + [v]) + Processed(rest);
        if |prev| < MaxReferences {
          AppendCappedIsCapped(prev + [v], rest);
        } else {
          AppendCappedAtCap(prev, rest);
        }
      } else {
        AppendCappedIsCapped(prev, rest);
      }
    }
  }

  lemma AppendCappedAtCap(prev: seq<string>, files: seq<DroppedFile>)
    requires |prev| == MaxReferences
    ensures AppendCapped(prev, files) == prev
  {
  }

  /** `processFiles`: nothing for a missing or empty file list; otherwise the
      image files, cut to the room left when the call began (JavaScript's
      `slice`, whose negative end counts from the back), added one by one
      under the cap. */
  function ProcessFiles(refs: seq<string>, files: Option<seq<DroppedFile>>): (r: seq<string>)
    ensures |refs| <= |r| && r[..|refs|] == refs
  {
    if files.None? || |files.value| == 0 then refs
    else
      var images := ImageFiles(files.value);
      AppendCapped(refs, images[..SliceEnd(|images|, MaxReferences - |refs|)])
  }

  /** From at most four references, adding files never yields more than
      four, and what is added is the first images that read, in order. */
  lemma ProcessFilesCap(refs: seq<string>, files: Option<seq<DroppedFile>>)
    requires |refs| <= MaxReferences
    ensures |ProcessFiles(refs, files)| <= MaxReferences
    ensures files.Some? && |files.value| > 0 ==>
              var images := ImageFiles(files.value);
              ProcessFiles(refs, files)
              == Capped(refs + Processed(images[..SliceEnd(|images|, MaxReferences - |refs|)]))
  {
    if files.Some? && |files.value| > 0 {
      var images := ImageFiles(files.value);
      AppendCappedIsCapped(refs, images[..SliceEnd(|images|, MaxReferences - |refs|)]);
    }
  }

  /** Non-image files are never added. */
  lemma ProcessFilesIgnoresNonImages(refs: seq<string>, files: seq<DroppedFile>)
    requires forall k :: 0 <= k < |files| ==> !IsImageFile(files[k])
    ensures ProcessFiles(refs, Some(files)) == refs
  {
  }

  /** The search-grounded inspiration's update of the list: the found
      references appended and the result cut to four, only when something
      was found. */
  function SearchReferences(prev: seq<string>, visual: seq<string>): (r: seq<string>)
    ensures |visual| == 0 ==> r == prev
    ensures |visual| > 0 ==> |r| <= MaxReferences
    ensures |visual| > 0 ==> |r| == MinNat(MaxReferences, |prev| + |visual|) && r == (prev + visual)[..|r|]
  {
    if |visual| > 0 then Capped(prev + visual) else prev
  }

  /** From at most four references, a search keeps every old reference in
      front and then adds the first found images that fit, in order. */
  lemma SearchReferencesParts(prev: seq<string>, visual: seq<string>)
    requires |prev| <= MaxReferences && |visual| > 0
    ensures var r := SearchReferences(prev, visual);
            && r[..|prev|] == prev
            && r[|prev|..] == visual[..MinNat(MaxReferences - |prev|, |visual|)]
  {
    var r := SearchReferences(prev, visual);
    assert r == (prev + visual)[..|r|];
    assert r[..|prev|] == (prev + visual)[..|prev|];
    assert r[|prev|..] == (prev + visual)[|prev|..|r|];
  }

  /** The whole search-grounded inspiration step: nothing for a blank
      concept or when either request fails; otherwise the palette notes
      become the text briefing and the references grow under the cap. */
  function SearchInspiration(concept: string, p: ClipPlan, refs: seq<string>,
                             outcome: Result<(string, seq<string>)>): (r: (ClipPlan, seq<string>))
    ensures AllWhitespace(concept) || outcome.Err? ==> r == (p, refs)
    ensures !AllWhitespace(concept) && outcome.Ok? ==>
              r.0 == p.(globalConstraints := p.globalConstraints.(paletteNotes := outcome.value.0))
    ensures |refs| <= MaxReferences ==> |r.1| <= MaxReferences
    ensures !AllWhitespace(concept) && outcome.Ok? ==> r.1 == SearchReferences(refs, outcome.value.1)
  {
    if AllWhitespace(concept) then (p, refs)
    else match outcome
      case Err(_) => (p, refs)
      case Ok((text, visual)) =>
        (p.(globalConstraints := p.globalConstraints.(paletteNotes := text)), SearchReferences(refs, visual))
  }

  /** Both ways of adding references keep the same shape: the old list,
      then the new ones, cut at four. */
  lemma CapsAgree(prev: seq<string>, files: seq<DroppedFile>)
    requires |prev| <= MaxReferences && |Processed(files)| > 0
    ensures AppendCapped(prev, files) == SearchReferences(prev, Processed(files))
  {
    AppendCappedIsCapped(prev, files);
  }

  /** The remove button's filter: every entry but the one at `i`. */
  function RemoveAt<T>(s: seq<T>, i: int): (r: seq<T>)
    ensures 0 <= i < |s| ==> r == s[..i] + s[i + 1..]
    ensures !(0 <= i < |s|) ==> r == s
  {
    if |s| == 0 then []
    else if i == 0 then s[1..]
    else
      var rest := RemoveAt(s[1..], i - 1);
      assert 0 <= i < |s| ==> s[1..][..i - 1] + s[1..][i..] == s[1..i] + s[i + 1..];
      assert 0 <= i < |s| ==> [s[0]] + (s[1..i] + s[i + 1..]) == s[..i] + s[i + 1..];
      [s[0]] + rest
  }

  /** Removing a reference shortens the list by one exactly when the index
      exists, and keeps every other entry in order. */
  lemma RemoveReference(refs: seq<string>, i: int)
    ensures |RemoveAt(refs, i)| == (if 0 <= i < |refs| then |refs| - 1 else |refs|)
    ensures forall k :: 0 <= k < |RemoveAt(refs, i)| ==>
              RemoveAt(refs, i)[k] == refs[if 0 <= i <= k then k + 1 else k]
  {
  }

  /** The frame-level upload (cineflow/App.tsx:520-529): the description
      replaces the frame's text, the uploaded image is appended as a
      completed custom upload and becomes the master image. A missing file
      does nothing; a frame index that no longer exists throws. */
  function UploadImage(p: ClipPlan, fi: int, file: Option<(string, string)>, id: string): (r: Result<ClipPlan>)
    ensures file.None? ==> r == Ok(p)
    ensures r.Err? <==> file.Some? && !(0 <= fi < |p.frames|)
    ensures r.Err? ==> r.message == TypeErrorMessage
    ensures r.Ok? ==> |r.value.frames| == |p.frames| && r.value.title == p.title
  {
    match file
    case None => Ok(p)
    case Some((url, desc)) =>
      if !(0 <= fi < |p.frames|) then Err(TypeErrorMessage)
      else
        var f := p.frames[fi];
        var img := FrameImage(id, url, Completed, CustomUpload, None);
        Ok(WithFrame(p, fi, f.(raw := desc, images := f.images + [img], selectedImageIndex := |f.images|)))
  }

  /** After an upload the new image is the master image, completed, so the
      frame can be animated; the older images and every other frame stay. */
  lemma UploadBecomesMaster(p: ClipPlan, fi: int, url: string, desc: string, id: string)
    requires 0 <= fi < |p.frames|
    ensures var r := UploadImage(p, fi, Some((url, desc)), id);
            && r.Ok?
            && MasterImage(r.value.frames[fi]) == Some(FrameImage(id, url, Completed, CustomUpload, None))
            && r.value.frames[fi].images[..|p.frames[fi].images|] == p.frames[fi].images
            && r.value.frames[fi].raw == desc
            && |r.value.frames| == |p.frames|
            && (forall j :: 0 <= j < |p.frames| && j != fi ==> r.value.frames[j] == p.frames[j])
  {
    var f := p.frames[fi];
    assert (f.images + [FrameImage(id, url, Completed, CustomUpload, None)])[..|f.images|] == f.images;
  }

  /** Choosing image `ii` of frame `fi` as the master (cineflow/App.tsx:514).
      A frame index that does not exist throws. */
  function SelectImage(p: ClipPlan, fi: int, ii: int): (r: Result<ClipPlan>)
    ensures r.Ok? <==> 0 <= fi < |p.frames|
    ensures r.Ok? ==> |r.value.frames| == |p.frames| && r.value.frames[fi].selectedImageIndex == ii
                      && r.value.frames[fi].images == p.frames[fi].images
    ensures r.Err? ==> r.message == TypeErrorMessage
  {
    if 0 <= fi < |p.frames| then Ok(WithFrame(p, fi, p.frames[fi].(selectedImageIndex := ii)))
    else Err(TypeErrorMessage)
  }

  /** The master image becomes image `ii` when it exists and undefined
      otherwise; nothing else in the plan changes. */
  lemma SelectImageMaster(p: ClipPlan, fi: int, ii: int)
    ensures SelectImage(p, fi, ii).Ok? <==> 0 <= fi < |p.frames|
    ensures 0 <= fi < |p.frames| ==>
              var q := SelectImage(p, fi, ii).value;
              && MasterImage(q.frames[fi]) == (if 0 <= ii < |p.frames[fi].images| then Some(p.frames[fi].images[ii]) else None)
              && q.frames[fi].images == p.frames[fi].images
              && (forall j :: 0 <= j < |p.frames| && j != fi ==> q.frames[j] == p.frames[j])
  {
  }

  /** Removing frame `i` (cineflow/App.tsx:511). */
  function RemoveFrame(p: ClipPlan, i: int): (r: ClipPlan)
    ensures r == p.(frames := RemoveAt(p.frames, i))
  {
    p.(frames := RemoveAt(p.frames, i))
  }

  /** After a removal and the resync that follows it, the transition list
      fits the new frame count: every entry keeps its index, status and
      video, and only the last entry is dropped. Transitions follow
      positions, not frames, so the entry at index i now joins the two
      frames on either side of the removed one. */
  lemma RemoveFrameResync(p: ClipPlan, ts: seq<TransitionSpec>, i: int)
    requires 0 <= i < |p.frames| && |ts| == PairCount(|p.frames|)
    ensures var ts2 := EnsureTransitions(ts, |RemoveFrame(p, i).frames|);
            && |ts2| == PairCount(|p.frames| - 1)
            && ts2 == ts[..|ts2|]
  {
    var ts2 := EnsureTransitions(ts, |RemoveFrame(p, i).frames|);
    assert |ts2| <= |ts|;
    assert forall k :: 0 <= k < |ts2| ==> ts2[k] == ts[k];
  }

  /** The stitch button's selection: the transition videos present, in
      order; fewer than two and nothing happens. */
  function TransitionUrls(ts: seq<TransitionSpec>): (r: seq<string>)
    ensures |r| <= |ts|
    ensures forall k :: 0 <= k < |r| ==> r[k] != "" && exists j :: 0 <= j < |ts| && ts[j].videoUrl == Some(r[k])
  {
    if |ts| == 0 then []
    else
      var rest := TransitionUrls(ts[1..]);
      if Truthy(ts[0].videoUrl) then [ts[0].videoUrl.value] + rest else rest
  }

  function StitchSelection(ts: seq<TransitionSpec>): (r: Option<seq<string>>)
    ensures r.Some? ==> |r.value| >= 2 && r.value == TransitionUrls(ts)
    ensures r.None? <==> |TransitionUrls(ts)| < 2
  {
    var urls := TransitionUrls(ts);
    if |urls| < 2 then None else Some(urls)
  }

  /** Every transition video present is selected. */
  lemma {:induction false} TransitionUrlsComplete(ts: seq<TransitionSpec>, j: int)
    requires 0 <= j < |ts| && Truthy(ts[j].videoUrl)
    ensures ts[j].videoUrl.value in TransitionUrls(ts)
    decreases |ts|
  {
    if j > 0 {
      TransitionUrlsComplete(ts[1..], j - 1);
    }
  }

  /** The selection of a single transition: its video, if it has one. */
  lemma TransitionUrlsSingle(t: TransitionSpec)
    ensures TransitionUrls([t]) == if Truthy(t.videoUrl) then [t.videoUrl.value] else []
  {
  }

  /** Selection distributes over concatenation: the videos keep the order
      of their transitions and each present video is taken exactly once, so
      the movie is stitched in storyboard order. */
  lemma {:induction false} TransitionUrlsAppend(a: seq<TransitionSpec>, b: seq<TransitionSpec>)
    ensures TransitionUrls(a + b) == TransitionUrls(a) + TransitionUrls(b)
    decreases |a|
  {
    if |a| == 0 {
      assert a + b == b;
    } else {
      assert (a + b)[1..] == a[1..] + b;
      assert (a + b)[0] == a[0];
      TransitionUrlsAppend(a[1..], b);
    }
  }

  /** Two transitions with videos are enough to stitch. */
  lemma {:induction false} TwoVideosStitch(ts: seq<TransitionSpec>, j: int, k: int)
    requires 0 <= j < k < |ts| && Truthy(ts[j].videoUrl) && Truthy(ts[k].videoUrl)
    ensures StitchSelection(ts).Some?
    decreases |ts|
  {
    if j == 0 {
      TransitionUrlsComplete(ts[1..], k - 1);
    } else {
      TwoVideosStitch(ts[1..], j - 1, k - 1);
    }
  }
}
