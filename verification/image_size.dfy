/** The image helpers of cineflow/services/videoUtils.ts: the size an
    uploaded picture is redrawn at (`processImageFile`), the down-scaling
    applied before every request (`resizeImage`) with its pass-through
    cases, and the empty-input check of `stitchVideos`. Decoding, canvas
    drawing and JPEG encoding are the browser's; their outcome is an input,
    and a re-encoded picture is represented by its size and quality. */
module ImageSize {

  import opened Wrappers
  import opened Strings
  import Types
  import References

  /** `Math.round` on an exact real: the nearest integer, halves upward. */
  function Round(x: real): (n: int)
    ensures x - 0.5 < n as real <= x + 0.5
  {
    (x + 0.5).Floor
  }

  /** Rounding a value no larger than an integer stays no larger. */
  lemma RoundAtMost(x: real, m: int)
    requires x <= m as real
    ensures Round(x) <= m
  {
  }

  /** What a helper resolves with: the text it was given, or a new JPEG
      drawn at the given size. */
  datatype Encoded = Original(dataUrl: string) | Jpeg(width: nat, height: nat, quality: real)

  /** How the browser fared with the picture: it failed to decode, or it
      decoded at its natural size, with or without a 2D canvas context. */
  datatype Decode = DecodeFailed | Decoded(width: nat, height: nat, hasContext: bool)

  // ---------------------------------------------------------------------
  // processImageFile

  const MaxDim: nat := 1536
  const UploadQuality: real := 0.9

  /** The redraw size of lines 9-22. A picture within 1536 on both sides
      keeps its size; otherwise its longer side (the height on a tie)
      becomes 1536 and the other side follows the aspect ratio, rounded.
      `1536 / (w / h)` is written `1536 * h / w`, which also gives the
      source's 0 for a zero height. */
  function UploadSize(w: nat, h: nat): (r: (nat, nat))
    ensures w <= MaxDim && h <= MaxDim ==> r == (w, h)
    ensures (w > MaxDim || h > MaxDim) && w > h ==>
              r.0 == MaxDim && r.1 as real - 0.5 <= MaxDim as real * h as real / w as real < r.1 as real + 0.5
    ensures (w > MaxDim || h > MaxDim) && w <= h ==>
              r.1 == MaxDim && r.0 as real - 0.5 <= MaxDim as real * w as real / h as real < r.0 as real + 0.5
  {
    if w <= MaxDim && h <= MaxDim then (w, h)
    else if w > h then (MaxDim, Round(MaxDim as real * h as real / w as real))
    else (Round(MaxDim as real * w as real / h as real), MaxDim)
  }

  /** An oversized picture comes out with its longer side exactly 1536;
      no side ever grows, and no side ends above 1536. */
  lemma UploadSizeBounds(w: nat, h: nat)
    ensures UploadSize(w, h).0 <= w && UploadSize(w, h).1 <= h
    ensures UploadSize(w, h).0 <= MaxDim && UploadSize(w, h).1 <= MaxDim
    ensures (w > MaxDim || h > MaxDim) ==> (UploadSize(w, h).0 == MaxDim || UploadSize(w, h).1 == MaxDim)
  {
    if w > MaxDim || h > MaxDim {
      if w > h {
        ScaledBelow(h, w, MaxDim);
      } else {
        ScaledBelow(w, h, MaxDim);
      }
    }
  }

  /** `side * m / long`, rounded, for `long >= m` and `long >= side`, is at
      most `side` and at most `m`. */
  lemma ScaledBelow(side: nat, long: nat, m: nat)
    requires long > 0 && m <= long && side <= long
    ensures Round(m as real * side as real / long as real) <= side
    ensures Round(m as real * side as real / long as real) <= m
  {
    var x := m as real * side as real / long as real;
    assert x <= side as real by {
      ShrinkFactor(m as real, side as real, long as real);
    }
    assert x <= m as real by {
      ShrinkFactor(side as real, m as real, long as real);
    }
    RoundAtMost(x, side);
    RoundAtMost(x, m);
  }

  /** Scaling by `f / long` with `f <= long` does not enlarge. */
  lemma ShrinkFactor(f: real, x: real, long: real)
    requires 0.0 <= f <= long && long > 0.0 && x >= 0.0
    ensures f * x / long <= x
    ensures x * f / long <= x
  {
    var q := f * x / long;
    assert q * long == f * x;
    assert (long - f) * x >= 0.0;
    assert q * long <= x * long;
    assert x * f == f * x;
  }

  /** Processing an already processed picture keeps its size. */
  lemma UploadSizeIdempotent(w: nat, h: nat)
    ensures UploadSize(UploadSize(w, h).0, UploadSize(w, h).1) == UploadSize(w, h)
  {
    UploadSizeBounds(w, h);
  }

  /** `processImageFile`: a file that cannot be read rejects; a picture that
      does not decode, or a missing canvas context, resolves with the file's
      own data URL; otherwise the picture is redrawn as a JPEG of quality
      0.9 at the upload size. */
  function ProcessImageFile(read: Result<string>, decode: Decode): (r: Result<Encoded>)
    ensures read.Err? ==> r == Err(read.message)
    ensures read.Ok? && (decode.DecodeFailed? || !decode.hasContext) ==> r == Ok(Original(read.value))
    ensures r.Ok? && r.value.Jpeg? ==>
              && decode.Decoded? && decode.hasContext
              && r.value.width <= MaxDim && r.value.height <= MaxDim
              && r.value.width <= decode.width && r.value.height <= decode.height
              && r.value.quality == UploadQuality
  {
    if read.Err? then Err(read.message)
    else match decode
      case DecodeFailed => Ok(Original(read.value))
      case Decoded(w, h, hasContext) =>
        if !hasContext then Ok(Original(read.value))
        else
          UploadSizeBounds(w, h);
          var size := UploadSize(w, h);
          Ok(Jpeg(size.0, size.1, UploadQuality))
  }

  // ---------------------------------------------------------------------
  // resizeImage

  const DefaultMaxWidth: nat := 1280
  const ResizeQuality: real := 0.85

  /** The redraw size of lines 55-61: a picture wider than `maxWidth` is
      narrowed to it with its height scaled and rounded; any other picture,
      however tall, keeps its size. */
  function ResizedSize(w: nat, h: nat, maxWidth: nat): (r: (nat, nat))
    ensures w <= maxWidth ==> r == (w, h)
    ensures w > maxWidth ==> r.0 == maxWidth
    ensures w > maxWidth ==> r.1 as real - 0.5 <= h as real * maxWidth as real / w as real < r.1 as real + 0.5
  {
    if w > maxWidth then (maxWidth, Round(h as real * maxWidth as real / w as real)) else (w, h)
  }

  /** The width never ends above the limit, and no side grows. */
  lemma ResizedSizeBounds(w: nat, h: nat, maxWidth: nat)
    ensures ResizedSize(w, h, maxWidth).0 <= maxWidth
    ensures ResizedSize(w, h, maxWidth).0 <= w && ResizedSize(w, h, maxWidth).1 <= h
  {
    if w > maxWidth {
      assert h as real * maxWidth as real / w as real == maxWidth as real * h as real / w as real;
      if h <= w {
        ScaledBelow(h, w, maxWidth);
      } else {
        ScaledWithin(h, w, maxWidth);
      }
    }
  }

  /** A tall picture: `m * side / long` with `m <= long <= side` is at most
      `side`. */
  lemma ScaledWithin(side: nat, long: nat, m: nat)
    requires long > 0 && m <= long && long <= side
    ensures Round(m as real * side as real / long as real) <= side
  {
    ShrinkFactor(m as real, side as real, long as real);
    RoundAtMost(m as real * side as real / long as real, side);
  }

  /** Resizing twice with the same limit is resizing once. */
  lemma ResizedSizeIdempotent(w: nat, h: nat, maxWidth: nat)
    ensures var r := ResizedSize(w, h, maxWidth); ResizedSize(r.0, r.1, maxWidth) == r
  {
    ResizedSizeBounds(w, h, maxWidth);
  }

  /** `resizeImage`: an empty text, or one that is not a data URL, comes
      back unchanged without being decoded; so does a picture that fails to
      decode or a missing canvas context. Otherwise the picture is redrawn
      as a JPEG at the resized size. The limit defaults to 1280. */
  function ResizeImage(base64: string, maxWidth: Option<nat>, decode: Decode): (r: Encoded)
    ensures !StartsWith(base64, "data:") ==> r == Original(base64)
    ensures decode.DecodeFailed? || !decode.hasContext ==> r == Original(base64)
    ensures r.Jpeg? ==>
              && StartsWith(base64, "data:") && decode.Decoded? && decode.hasContext
              && r.width <= maxWidth.GetOr(DefaultMaxWidth)
              && r.width <= decode.width && r.height <= decode.height
              && (decode.width <= maxWidth.GetOr(DefaultMaxWidth) ==> r.width == decode.width && r.height == decode.height)
              && r.quality == ResizeQuality
  {
    if base64 == [] || !StartsWith(base64, "data:") then Original(base64)
    else match decode
      case DecodeFailed => Original(base64)
      case Decoded(w, h, hasContext) =>
        if !hasContext then Original(base64)
        else
          var limit := maxWidth.GetOr(DefaultMaxWidth);
          ResizedSizeBounds(w, h, limit);
          var size := ResizedSize(w, h, limit);
          Jpeg(size.0, size.1, ResizeQuality)
  }

  // ---------------------------------------------------------------------
  // stitchVideos

  const NoVideosMessage: string := "No videos to stitch"

  /** `stitchVideos` refuses an empty list before touching the browser;
      otherwise the recording's outcome (an input) is the result. */
  function StitchVideos(urls: seq<string>, recording: Result<string>): (r: Result<string>)
    ensures urls == [] ==> r == Err(NoVideosMessage)
    ensures urls != [] ==> r == recording
  {
    if |urls| == 0 then Err(NoVideosMessage) else recording
  }

  /** The stitch button hands over at least two videos, so the refusal
      never reaches the user from there. */
  lemma StitchButtonNeverRefused(ts: seq<Types.TransitionSpec>, recording: Result<string>)
    requires References.StitchSelection(ts).Some?
    ensures StitchVideos(References.StitchSelection(ts).value, recording) == recording
  {
  }
}
