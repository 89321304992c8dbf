/** The cast editor of the project-concept panel
    (cineflow/components/ProjectConcept.tsx:46-124) and the panel's field
    setters (:164, :169, :321, :329). Every edit is a `setPlan` updater: a
    pure function of the current plan. A missing character list is read as
    an empty one, and every cast edit writes the list back, so after any
    of them the plan holds a list. */
module Cast {

  import opened Wrappers
  import opened Types
  import References

  /** The entry `addCharacter` appends. */
  function NewEntity(): (c: CharacterSpec)
    ensures c.images == Some([]) && c.name != "" && c.name[0] != ' '
  {
    CharacterSpec("New Entity", "", Some([]))
  }

  /** `prev.globalConstraints.characters || []`. */
  function Characters(p: ClipPlan): seq<CharacterSpec> {
    p.globalConstraints.characters.GetOr([])
  }

  /** A character's images, `images || []`. */
  function ImagesOf(c: CharacterSpec): seq<string> {
    c.images.GetOr([])
  }

  /** `q` differs from `p` at most in the character list. */
  predicate OnlyCastChanged(p: ClipPlan, q: ClipPlan) {
    q == p.(globalConstraints := p.globalConstraints.(characters := q.globalConstraints.characters))
  }

  /** The plan with the character list written back. */
  function WithCharacters(p: ClipPlan, cs: seq<CharacterSpec>): (r: ClipPlan)
    ensures OnlyCastChanged(p, r) && r.globalConstraints.characters == Some(cs)
  {
    p.(globalConstraints := p.globalConstraints.(characters := Some(cs)))
  }

  /** `addCharacter`: one new entry at the end, the rest kept in order. */
  function AddCharacter(p: ClipPlan): (r: ClipPlan)
    ensures OnlyCastChanged(p, r) && r.globalConstraints.characters.Some?
    ensures |Characters(r)| == |Characters(p)| + 1
    ensures Characters(r)[..|Characters(p)|] == Characters(p)
    ensures Characters(r)[|Characters(p)|] == NewEntity()
  {
    var cs := Characters(p) + [NewEntity()];
    assert cs[..|Characters(p)|] == Characters(p);
    WithCharacters(p, cs)
  }

  /** The two text fields `updateCharacter` may set. */
  datatype CharacterField = Name | Description

  /** `updateCharacter`: the one field of character `idx` takes the new
      value; its other fields and every other character stay. */
  function UpdateCharacter(p: ClipPlan, idx: int, field: CharacterField, value: string): (r: ClipPlan)
    requires 0 <= idx < |Characters(p)|
    ensures OnlyCastChanged(p, r) && r.globalConstraints.characters.Some?
    ensures |Characters(r)| == |Characters(p)|
    ensures forall j :: 0 <= j < |Characters(p)| && j != idx ==> Characters(r)[j] == Characters(p)[j]
    ensures Characters(r)[idx].images == Characters(p)[idx].images
    ensures Characters(r)[idx].name == (if field == Name then value else Characters(p)[idx].name)
    ensures Characters(r)[idx].description == (if field == Description then value else Characters(p)[idx].description)
  {
    var c := Characters(p)[idx];
    var c' := if field == Name then c.(name := value) else c.(description := value);
    assert c'.description == (if field == Description then value else c.description);
    var r := WithCharacters(p, Characters(p)[idx := c']);
    assert Characters(r) == Characters(p)[idx := c'];
    r
  }

  /** Where `splice(idx, 1)` starts on a list of length `len`: a negative
      index counts from the back, and one before the front is the front. */
  function SpliceStart(len: nat, idx: int): (k: nat)
    ensures idx >= 0 ==> k == idx
    ensures idx < 0 && len > 0 ==> k < len
    ensures idx < 0 && -idx <= len ==> k - idx == len
    ensures idx < -(len as int) ==> k == 0
  {
    if idx >= 0 then idx else if len + idx < 0 then 0 else len + idx
  }

  /** `removeCharacter`: the entry at `idx` goes and the others keep their
      order. An index past the end removes nothing; a negative one counts
      from the back, so -1 removes the last entry. */
  function RemoveCharacter(p: ClipPlan, idx: int): (r: ClipPlan)
    ensures OnlyCastChanged(p, r) && r.globalConstraints.characters.Some?
    ensures 0 <= idx < |Characters(p)| ==> Characters(r) == Characters(p)[..idx] + Characters(p)[idx + 1..]
    ensures idx >= |Characters(p)| ==> Characters(r) == Characters(p)
    ensures idx < 0 && Characters(p) != [] ==>
              var k := if |Characters(p)| + idx < 0 then 0 else |Characters(p)| + idx;
              Characters(r) == Characters(p)[..k] + Characters(p)[k + 1..]
    ensures idx < 0 && Characters(p) == [] ==> Characters(r) == []
  {
    WithCharacters(p, References.RemoveAt(Characters(p), SpliceStart(|Characters(p)|, idx)))
  }

  /** Removing the entry just added, by its index or as the last one, gives
      back the cast as it was. */
  lemma RemoveUndoesAdd(p: ClipPlan)
    ensures Characters(RemoveCharacter(AddCharacter(p), |Characters(p)|)) == Characters(p)
    ensures Characters(RemoveCharacter(AddCharacter(p), -1)) == Characters(p)
  {
    var q := AddCharacter(p);
    var n := |Characters(p)|;
    assert Characters(q)[..n] + Characters(q)[n + 1..] == Characters(p);
  }

  /** `q` is `p` with `urls` appended to the images of character `i`, the
      character list written back and nothing else changed. */
  predicate AppendedImages(p: ClipPlan, q: ClipPlan, i: int, urls: seq<string>) {
    && 0 <= i < |Characters(p)|
    && OnlyCastChanged(p, q) && q.globalConstraints.characters.Some?
    && |Characters(q)| == |Characters(p)|
    && (forall j :: 0 <= j < |Characters(p)| && j != i ==> Characters(q)[j] == Characters(p)[j])
    && Characters(q)[i] == Characters(p)[i].(images := Some(ImagesOf(Characters(p)[i]) + urls))
  }

  /** One upload updater: the image joins the end of character `i`'s list.
      Reading `.images` of a character that does not exist throws. */
  function AddImage(p: ClipPlan, i: int, url: string): (r: Result<ClipPlan>)
    ensures r.Ok? <==> 0 <= i < |Characters(p)|
    ensures r.Ok? ==> AppendedImages(p, r.value, i, [url])
  {
    if !(0 <= i < |Characters(p)|) then Err(TypeErrorMessage)
    else
      var c := Characters(p)[i];
      Ok(WithCharacters(p, Characters(p)[i := c.(images := Some(ImagesOf(c) + [url]))]))
  }

  /** Two appends to the same character are one append of both lists. */
  lemma AppendedTwice(p: ClipPlan, q: ClipPlan, s: ClipPlan, i: int, a: seq<string>, b: seq<string>)
    requires AppendedImages(p, q, i, a) && AppendedImages(q, s, i, b)
    ensures AppendedImages(p, s, i, a + b)
  {
    assert ImagesOf(Characters(q)[i]) == ImagesOf(Characters(p)[i]) + a;
    assert ImagesOf(Characters(p)[i]) + a + b == ImagesOf(Characters(p)[i]) + (a + b);
  }

  /** The upload loop over the chosen files: each file that reads becomes
      one append, in file order; one that fails to read is skipped. */
  function {:induction false} UploadEach(p: ClipPlan, i: int, files: seq<References.DroppedFile>): (r: Result<ClipPlan>)
    ensures References.Processed(files) == [] ==> r == Ok(p)
    ensures References.Processed(files) != [] ==> (r.Ok? <==> 0 <= i < |Characters(p)|)
    ensures r.Ok? && References.Processed(files) != [] ==> AppendedImages(p, r.value, i, References.Processed(files))
    decreases |files|
  {
    if |files| == 0 then Ok(p)
    else if files[0].processed.Err? then UploadEach(p, i, files[1..])
    else
      var url := files[0].processed.value;
      match AddImage(p, i, url)
      case Err(m) => Err(m)
      case Ok(q) =>
        var r := UploadEach(q, i, files[1..]);
        assert References.Processed(files) == [url] + References.Processed(files[1..]);
        assert References.Processed(files[1..]) == [] ==> References.Processed(files) == [url];
        if r.Ok? && References.Processed(files[1..]) != [] then
          AppendedTwice(p, q, r.value, i, [url], References.Processed(files[1..]));
          r
        else
          r
  }

  /** `handleCharImageUpload`: no file list, or an empty one, changes
      nothing; otherwise every file that reads is appended to character
      `i`'s images in order, and a character that does not exist makes the
      first such append throw. */
  function CharImageUpload(p: ClipPlan, i: int, files: Option<seq<References.DroppedFile>>): (r: Result<ClipPlan>)
    ensures files.None? || files == Some([]) ==> r == Ok(p)
    ensures files.Some? && References.Processed(files.value) != [] ==>
              (r.Ok? <==> 0 <= i < |Characters(p)|)
    ensures r.Ok? && files.Some? && References.Processed(files.value) != [] ==>
              AppendedImages(p, r.value, i, References.Processed(files.value))
  {
    if files.None? || |files.value| == 0 then Ok(p) else UploadEach(p, i, files.value)
  }

  /** One paste updater: like an upload, except that a character that no
      longer exists leaves the plan as it was. */
  function PasteImage(p: ClipPlan, i: int, url: string): (r: ClipPlan)
    ensures !(0 <= i < |Characters(p)|) ==> r == p
    ensures 0 <= i < |Characters(p)| ==> AppendedImages(p, r, i, [url])
  {
    match AddImage(p, i, url)
    case Ok(q) => q
    case Err(_) => p
  }

  function {:induction false} PasteEach(p: ClipPlan, i: int, files: seq<References.DroppedFile>): (r: ClipPlan)
    ensures !(0 <= i < |Characters(p)|) ==> r == p
    ensures 0 <= i < |Characters(p)| && References.Processed(files) == [] ==> r == p
    ensures 0 <= i < |Characters(p)| && References.Processed(files) != [] ==>
              AppendedImages(p, r, i, References.Processed(files))
    decreases |files|
  {
    if |files| == 0 then p
    else if files[0].processed.Err? then PasteEach(p, i, files[1..])
    else
      var url := files[0].processed.value;
      var q := PasteImage(p, i, url);
      var r := PasteEach(q, i, files[1..]);
      assert References.Processed(files) == [url] + References.Processed(files[1..]);
      assert References.Processed(files[1..]) == [] ==> References.Processed(files) == [url];
      if 0 <= i < |Characters(p)| && References.Processed(files[1..]) != [] then
        AppendedTwice(p, q, r, i, [url], References.Processed(files[1..]));
        r
      else
        r
  }

  /** `handleCharPaste`: only the pasted image files count, each that reads
      is appended in order, and a character that no longer exists leaves
      the plan as it was. */
  function CharPaste(p: ClipPlan, i: int, files: seq<References.DroppedFile>): (r: ClipPlan)
    ensures !(0 <= i < |Characters(p)|) ==> r == p
    ensures References.Processed(References.ImageFiles(files)) == [] ==> r == p
    ensures 0 <= i < |Characters(p)| && References.Processed(References.ImageFiles(files)) != [] ==>
              AppendedImages(p, r, i, References.Processed(References.ImageFiles(files)))
  {
    PasteEach(p, i, References.ImageFiles(files))
  }

  /** On an existing character a paste is an upload of the pasted image
      files: the two paths append the same images. */
  lemma PasteIsUploadOfImages(p: ClipPlan, i: int, files: seq<References.DroppedFile>)
    requires 0 <= i < |Characters(p)|
    ensures CharImageUpload(p, i, Some(References.ImageFiles(files))) == Ok(CharPaste(p, i, files))
  {
    var images := References.ImageFiles(files);
    var urls := References.Processed(images);
    if urls != [] {
      AppendedUnique(p, CharImageUpload(p, i, Some(images)).value, CharPaste(p, i, files), i, urls);
    }
  }

  /** The append is determined by the plan, the character and the images. */
  lemma AppendedUnique(p: ClipPlan, q: ClipPlan, s: ClipPlan, i: int, urls: seq<string>)
    requires AppendedImages(p, q, i, urls) && AppendedImages(p, s, i, urls)
    ensures q == s
  {
    assert Characters(q) == Characters(s);
  }

  /** `removeCharImage`: image `imgIdx` of character `charIdx` is filtered
      out (no image when the index does not exist); the character's other
      images keep their order and nothing else changes. A character that
      does not exist makes the read of its images throw. */
  function RemoveCharImage(p: ClipPlan, charIdx: int, imgIdx: int): (r: Result<ClipPlan>)
    ensures r.Ok? <==> 0 <= charIdx < |Characters(p)|
    ensures r.Ok? ==>
              var c := Characters(p)[charIdx];
              && OnlyCastChanged(p, r.value) && r.value.globalConstraints.characters.Some?
              && |Characters(r.value)| == |Characters(p)|
              && (forall j :: 0 <= j < |Characters(p)| && j != charIdx ==> Characters(r.value)[j] == Characters(p)[j])
              && Characters(r.value)[charIdx].name == c.name
              && Characters(r.value)[charIdx].description == c.description
              && Characters(r.value)[charIdx].images == Some(References.RemoveAt(ImagesOf(c), imgIdx))
  {
    if !(0 <= charIdx < |Characters(p)|) then Err(TypeErrorMessage)
    else
      var c := Characters(p)[charIdx];
      Ok(WithCharacters(p, Characters(p)[charIdx := c.(images := Some(References.RemoveAt(ImagesOf(c), imgIdx)))]))
  }

  /** Removing the image an upload just appended restores the character. */
  lemma RemoveUndoesUpload(p: ClipPlan, i: int, url: string)
    requires 0 <= i < |Characters(p)|
    ensures var q := AddImage(p, i, url).value;
            var n := |ImagesOf(Characters(p)[i])|;
            && RemoveCharImage(q, i, n).Ok?
            && ImagesOf(Characters(RemoveCharImage(q, i, n).value)[i]) == ImagesOf(Characters(p)[i])
            && Characters(RemoveCharImage(q, i, n).value)[..i] == Characters(p)[..i]
  {
    var q := AddImage(p, i, url).value;
    var before := ImagesOf(Characters(p)[i]);
    assert ImagesOf(Characters(q)[i]) == before + [url];
    assert (before + [url])[..|before|] + (before + [url])[|before| + 1..] == before;
  }

  /** The "Story" and "Montage" buttons. */
  function SetNarrativeMode(p: ClipPlan, m: NarrativeMode): (r: ClipPlan)
    ensures r.narrativeMode == m && r.(narrativeMode := p.narrativeMode) == p
  {
    p.(narrativeMode := m)
  }

  /** The title input. */
  function SetTitle(p: ClipPlan, t: string): (r: ClipPlan)
    ensures r.title == t && r.(title := p.title) == p
  {
    p.(title := t)
  }

  /** The aesthetic-brief text area, which edits the palette notes. */
  function SetPaletteNotes(p: ClipPlan, notes: string): (r: ClipPlan)
    ensures r.globalConstraints.paletteNotes == notes
    ensures r.(globalConstraints := r.globalConstraints.(paletteNotes := p.globalConstraints.paletteNotes)) == p
  {
    p.(globalConstraints := p.globalConstraints.(paletteNotes := notes))
  }

  /** The setters touch disjoint fields: they commute with each other and
      with every cast edit, and none of them touches the cast. */
  lemma SettersIndependent(p: ClipPlan, m: NarrativeMode, t: string, notes: string)
    ensures SetTitle(SetNarrativeMode(p, m), t) == SetNarrativeMode(SetTitle(p, t), m)
    ensures SetPaletteNotes(SetTitle(p, t), notes) == SetTitle(SetPaletteNotes(p, notes), t)
    ensures Characters(SetPaletteNotes(SetTitle(SetNarrativeMode(p, m), t), notes)) == Characters(p)
    ensures AddCharacter(SetPaletteNotes(p, notes)) == SetPaletteNotes(AddCharacter(p), notes)
  {
  }
}
