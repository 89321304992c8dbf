/** The provider-service helpers of services/geminiService.ts: JSON fence
    stripping, data-URI splitting, the fallback classifiers, keyframe prompt
    and part assembly, the director-prompt task choice and default, and the
    shaping of the video requests sent to Veo and to the Fal.ai fallback.
    Every remote call is outside the model; its outcome is an input. */
module Gemini {

  import opened Wrappers
  import opened Strings
  import opened Types
  import FrameImages
  import Fal

  // ---------------------------------------------------------------------
  // cleanJson

  const Fence: string := "```"
  const JsonFence: string := "```json"

  /** The leading-fence replacement: the opening fence ("```json" or "```")
      and the white space after it. */
  function StripOpenFence(s: string, fence: string): string
    requires StartsWith(s, fence)
  {
    TrimStart(s[|fence|..])
  }

  /** The trailing-fence replacement: a closing fence at the very end, and
      the white space before it. */
  function StripCloseFence(s: string): string {
    if EndsWith(s, Fence) then TrimEnd(s[..|s| - |Fence|]) else s
  }

  /** The opening fence of a trimmed text: "```json" when present, else
      "```" when present, else none. */
  function OpeningFence(c: string): (f: string)
    ensures f == JsonFence || f == Fence || f == []
    ensures f != [] ==> StartsWith(c, f)
    ensures f == [] <==> !StartsWith(c, Fence)
  {
    if StartsWith(c, JsonFence) then JsonStartsFence(c); JsonFence
    else if StartsWith(c, Fence) then Fence
    else []
  }

  lemma JsonStartsFence(c: string)
    requires StartsWith(c, JsonFence)
    ensures StartsWith(c, Fence)
  {
    assert c[..3] == c[..7][..3];
  }

  /** Removes a leading Markdown code fence (and a closing one) from a
      trimmed text; the result is still trimmed, and a text without a
      leading fence is returned as is. */
  function Unfence(c: string): (r: string)
    requires IsTrimmed(c)
    ensures IsTrimmed(r) && |r| <= |c|
    ensures !StartsWith(c, Fence) ==> r == c
  {
    var f := OpeningFence(c);
    if f == [] then c
    else
      FencedTrimmed(c, f);
      StripCloseFence(StripOpenFence(c, f))
  }

  /** `cleanJson`: a missing or empty text becomes "{}"; anything else is
      trimmed and loses a surrounding Markdown code fence. The result never
      has white space at either end, and text without a leading fence is
      only trimmed. */
  function CleanJson(text: Option<string>): (r: string)
    ensures text.None? || text == Some([]) ==> r == "{}"
    ensures text.Some? && text.value != [] ==> IsTrimmed(r) && |r| <= |text.value|
    ensures text.Some? && text.value != [] && !StartsWith(Trim(text.value), Fence) ==>
      r == Trim(text.value)
  {
    if text.None? || text.value == [] then "{}"
    else Unfence(Trim(text.value))
  }

  /** Unwrapping a fenced, trimmed text leaves a trimmed text. */
  lemma FencedTrimmed(c: string, fence: string)
    requires IsTrimmed(c) && StartsWith(c, fence) && |fence| > 0
    ensures IsTrimmed(StripCloseFence(StripOpenFence(c, fence)))
    ensures |StripCloseFence(StripOpenFence(c, fence))| <= |c|
  {
    var a := StripOpenFence(c, fence);
    assert a == c[|fence|..][|c| - |fence| - |a|..];
    if a != [] && !EndsWith(a, Fence) {
      assert a[|a| - 1] == c[|c| - 1];
    }
  }

  /** Whether the closing-fence replacement finds a fence: it applies to
      what is left once the opening fence and the white space after it are
      gone. */
  predicate ClosesFence(c: string)
    requires StartsWith(c, Fence)
  {
    EndsWith(StripOpenFence(c, OpeningFence(c)), Fence)
  }

  /** The shape of every fenced text: its opening fence, white space, the
      unwrapped text, and, when the fence is closed, white space and the
      closing fence. The unwrapped text is trimmed, so these white-space
      runs are the whole runs around it. */
  lemma UnfenceShape(c: string)
    requires IsTrimmed(c) && StartsWith(c, Fence)
    ensures IsTrimmed(Unfence(c))
    ensures ClosesFence(c) ==>
      exists w1, w2 :: AllWhitespace(w1) && AllWhitespace(w2)
        && c == OpeningFence(c) + w1 + Unfence(c) + w2 + Fence
    ensures !ClosesFence(c) ==>
      exists w1 :: AllWhitespace(w1) && c == OpeningFence(c) + w1 + Unfence(c)
  {
    var f := OpeningFence(c);
    var a := StripOpenFence(c, f);
    var w1 := OpenSplit(c, f);
    if ClosesFence(c) {
      var w2 := CloseSplit(a);
      assert c == f + w1 + Unfence(c) + w2 + Fence by {
        Assoc5(f, w1, TrimEnd(a[..|a| - |Fence|]), w2, Fence);
      }
    }
  }

  /** The opening replacement removes the fence and a white-space run. */
  lemma OpenSplit(c: string, f: string) returns (w1: string)
    requires StartsWith(c, f)
    ensures AllWhitespace(w1) && c == f + w1 + StripOpenFence(c, f)
  {
    var s := c[|f|..];
    var a := TrimStart(s);
    w1 := s[..|s| - |a|];
    assert s == w1 + a by {
      assert a == s[|s| - |a|..];
      SplitAt(s, |s| - |a|);
    }
    assert c == f + s by {
      assert c[..|f|] == f;
      SplitAt(c, |f|);
    }
    Assoc3(f, w1, a);
  }

  lemma SplitAt(s: string, k: nat)
    requires k <= |s|
    ensures s == s[..k] + s[k..]
  {
  }

  lemma Assoc3(p: string, q: string, r: string)
    ensures p + (q + r) == p + q + r
  {
  }

  /** The closing replacement removes a white-space run and the fence. */
  lemma CloseSplit(a: string) returns (w2: string)
    requires EndsWith(a, Fence)
    ensures AllWhitespace(w2) && a == TrimEnd(a[..|a| - |Fence|]) + w2 + Fence
  {
    var b := a[..|a| - |Fence|];
    var r := TrimEnd(b);
    w2 := b[|r|..];
    assert b == r + w2;
    assert a == b + Fence;
  }

  lemma Assoc5(p: string, q: string, r: string, s: string, t: string)
    ensures p + q + (r + s + t) == p + q + r + s + t
  {
  }

  /** `cleanJson` on a fenced answer: the trimmed answer is the opening
      fence, white space, the result, and, when closed, white space and the
      closing fence. */
  lemma CleanJsonShape(text: string)
    requires text != [] && StartsWith(Trim(text), Fence)
    ensures IsTrimmed(CleanJson(Some(text)))
    ensures ClosesFence(Trim(text)) ==>
      exists w1, w2 :: AllWhitespace(w1) && AllWhitespace(w2)
        && Trim(text) == OpeningFence(Trim(text)) + w1 + CleanJson(Some(text)) + w2 + Fence
    ensures !ClosesFence(Trim(text)) ==>
      exists w1 :: AllWhitespace(w1) && Trim(text) == OpeningFence(Trim(text)) + w1 + CleanJson(Some(text))
  {
    UnfenceShape(Trim(text));
  }

  /** White space alone cleans to the empty text, not to "{}". */
  lemma CleanJsonWhitespace(t: string)
    requires t != [] && AllWhitespace(t)
    ensures CleanJson(Some(t)) == []
  {
    TrimEmptyIff(t);
  }

  /** White space in front of a text that does not start with any. */
  lemma {:induction false} TrimStartPast(w: string, x: string)
    requires AllWhitespace(w) && (x == [] || !IsWhitespace(x[0]))
    ensures TrimStart(w + x) == x
    decreases |w|
  {
    if w != [] {
      assert IsWhitespace(w[0]);
      assert (w + x)[1..] == w[1..] + x;
      TrimStartPast(w[1..], x);
    }
  }

  /** White space behind a text that does not end with any. */
  lemma TrimEndBefore(x: string, w: string)
    requires AllWhitespace(w) && (x == [] || !IsWhitespace(x[|x| - 1]))
    ensures TrimEnd(x + w) == x
  {
    var s := x + w;
    assert s[..|x|] == x;
  }

  /** Fencing a JSON body the way a model answers ("```json", a newline, the
      body, a newline, "```") and cleaning it gives the body back; so does a
      bare "```" fence. */
  lemma CleanJsonUnwrapsFence(body: string, lang: string)
    requires body != [] && IsTrimmed(body)
    requires lang == "json" || lang == ""
    ensures CleanJson(Some(Fence + lang + "\n" + body + "\n" + Fence)) == body
  {
    var open := Fence + lang;
    var tail := body + "\n" + Fence;
    var t := open + ("\n" + tail);
    assert Fence + lang + "\n" + body + "\n" + Fence == t;
    assert EndsWith(tail, Fence) by { EndsWithConcat(body + "\n", Fence); }
    FencedIsTrimmed(open, tail);
    TrimOfTrimmed(t);
    UnfenceOf(lang, tail);
    StripCloseOfFenced(body);
  }

  /** Unfencing strips exactly the fence that was put on. */
  lemma UnfenceOf(lang: string, tail: string)
    requires lang == "json" || lang == ""
    requires tail != [] && !IsWhitespace(tail[0]) && EndsWith(tail, Fence)
    ensures IsTrimmed(Fence + lang + ("\n" + tail))
    ensures Unfence(Fence + lang + ("\n" + tail)) == StripCloseFence(tail)
  {
    if lang == "json" {
      assert Fence + lang == JsonFence;
      UnfenceJsonOf(tail);
    } else {
      assert Fence + lang == Fence;
      UnfenceBareOf(tail);
    }
  }

  lemma UnfenceJsonOf(tail: string)
    requires tail != [] && !IsWhitespace(tail[0]) && EndsWith(tail, Fence)
    ensures IsTrimmed(JsonFence + ("\n" + tail))
    ensures Unfence(JsonFence + ("\n" + tail)) == StripCloseFence(tail)
  {
    var t := JsonFence + ("\n" + tail);
    assert StartsWith(JsonFence, Fence) by { JsonStartsFence(JsonFence); }
    FencedIsTrimmed(JsonFence, tail);
    StripOpenOfFenced(JsonFence, tail);
    assert OpeningFence(t) == JsonFence;
  }

  lemma UnfenceBareOf(tail: string)
    requires tail != [] && !IsWhitespace(tail[0]) && EndsWith(tail, Fence)
    ensures IsTrimmed(Fence + ("\n" + tail))
    ensures Unfence(Fence + ("\n" + tail)) == StripCloseFence(tail)
  {
    var t := Fence + ("\n" + tail);
    FencedIsTrimmed(Fence, tail);
    StripOpenOfFenced(Fence, tail);
    assert t[3] == '\n';
    UnfenceBare(t);
  }

  lemma FencedIsTrimmed(open: string, tail: string)
    requires StartsWith(open, Fence) && EndsWith(tail, Fence)
    ensures IsTrimmed(open + ("\n" + tail))
  {
    var t := open + ("\n" + tail);
    assert t[0] == open[..3][0] == '`';
    assert t[|t| - 1] == tail[|tail| - 3..][2] == '`';
  }

  /** A bare fence followed by a newline is not a "```json" fence. */
  lemma UnfenceBare(t: string)
    requires IsTrimmed(t) && StartsWith(t, Fence) && |t| > 3 && t[3] == '\n'
    ensures Unfence(t) == StripCloseFence(StripOpenFence(t, Fence))
  {
    assert OpeningFence(t) == Fence by {
      if StartsWith(t, JsonFence) {
        assert false;
      }
    }
  }

  lemma StripOpenOfFenced(open: string, tail: string)
    requires tail != [] && !IsWhitespace(tail[0])
    ensures StartsWith(open + ("\n" + tail), open)
    ensures StripOpenFence(open + ("\n" + tail), open) == tail
  {
    var t := open + ("\n" + tail);
    assert t[..|open|] == open;
    assert t[|open|..] == "\n" + tail;
    TrimStartPast("\n", tail);
  }

  lemma StripCloseOfFenced(body: string)
    requires body != [] && IsTrimmed(body)
    ensures StripCloseFence(body + "\n" + Fence) == body
  {
    var tail := body + "\n" + Fence;
    assert tail[|tail| - 3..] == Fence;
    assert tail[..|tail| - 3] == body + "\n";
    TrimEndBefore(body, "\n");
  }

  // ---------------------------------------------------------------------
  // toInlineData

  const DefaultMime: string := "image/jpeg"

  datatype InlineData = InlineData(mimeType: string, data: string)

  /** The text before the first `c`, or all of it. */
  function Before(s: string, c: char): (r: string)
    ensures |r| <= |s| && r == s[..|r|] && c !in r
    ensures |r| == |s| || s[|r|] == c
  {
    var r := Split(s, c)[0];
    SplitHead(s, c);
    r
  }

  /** The first `c` is where `Before` stops. */
  lemma BeforeAt(s: string, c: char, k: nat)
    requires k < |s| && s[k] == c && c !in s[..k]
    ensures Split(s, c)[0] == s[..k]
  {
    var r := Before(s, c);
  }

  lemma SplitHead(s: string, c: char)
    ensures var h := Split(s, c)[0]; |h| <= |s| && h == s[..|h|] && (|h| == |s| || s[|h|] == c)
  {
  }

  /** `toInlineData`: without a comma the whole text is the data and the type
      is JPEG. Otherwise the data is the text right after the first comma up
      to the next comma (or the end), and the type is whatever follows the
      first ':' of the header's part before ';', JPEG when that is empty or
      absent. */
  function ToInlineData(s: string): (r: InlineData)
    ensures ',' !in s ==> r == InlineData(DefaultMime, s)
    ensures r.mimeType != []
    ensures ',' in s ==>
      var i := IndexOf(s, ',');
      ',' !in r.data && OccursAt(s, r.data, i + 1)
      && (i + 1 + |r.data| == |s| || s[i + 1 + |r.data|] == ',')
  {
    if ',' !in s then InlineData(DefaultMime, s)
    else
      var parts := Split(s, ',');
      var mime := Piece(Split(parts[0], ';')[0], ':', 1);
      SplitHead(s[IndexOf(s, ',') + 1..], ',');
      InlineData(if mime.Some? && mime.value != [] then mime.value else DefaultMime, parts[1])
  }

  /** A data URI, as the canvas and file readers produce. */
  function DataUri(mime: string, payload: string): string {
    "data:" + mime + ";base64," + payload
  }

  /** Splitting a data URI recovers its type and payload. */
  lemma InlineDataRoundTrip(mime: string, payload: string)
    requires mime != [] && ',' !in mime && ';' !in mime && ':' !in mime
    requires ',' !in payload
    ensures ToInlineData(DataUri(mime, payload)) == InlineData(mime, payload)
  {
    DataUriCommas(mime, payload);
    DataUriHeader(mime);
    DataUriMime(mime);
  }

  /** The comma of a data URI separates the header from the payload. */
  lemma DataUriCommas(mime: string, payload: string)
    requires ',' !in mime && ',' !in payload
    ensures Split(DataUri(mime, payload), ',') == ["data:" + mime + ";base64", payload]
  {
    var header := "data:" + mime + ";base64";
    assert DataUri(mime, payload) == Join([header, payload], ',');
    SplitJoin([header, payload], ',');
  }

  lemma DataUriHeader(mime: string)
    requires ';' !in mime
    ensures Split("data:" + mime + ";base64", ';')[0] == "data:" + mime
  {
    assert "data:" + mime + ";base64" == Join(["data:" + mime, "base64"], ';');
    SplitJoin(["data:" + mime, "base64"], ';');
  }

  lemma DataUriMime(mime: string)
    requires ':' !in mime
    ensures Piece("data:" + mime, ':', 1) == Some(mime)
  {
    assert "data:" + mime == Join(["data", mime], ':');
    SplitJoin(["data", mime], ':');
  }

  /** The first ';' of a data URI ends its media type. */
  lemma DataUriSemicolon(mime: string, payload: string)
    requires ';' !in mime
    ensures Split(DataUri(mime, payload), ';')[0] == "data:" + mime
  {
    var s := DataUri(mime, payload);
    assert s[|"data:" + mime|] == ';' && s[..|"data:" + mime|] == "data:" + mime;
    BeforeAt(s, ';', |"data:" + mime|);
  }

  /** The start and end images of a Veo request: `split(',')[1]` as the
      bytes and `split(';')[0].split(':')[1]` as the type, either of which
      is `undefined` when the text lacks the separator. */
  datatype VeoImage = VeoImage(imageBytes: Option<string>, mimeType: Option<string>)

  /** For any text: the bytes exist exactly when it has a comma and are then
      the data `toInlineData` takes; the type exists exactly when the text
      before the first ';' has a ':', and is then what follows that first
      ':', up to the next one. */
  function ToVeoImage(s: string): (r: VeoImage)
    ensures r.imageBytes.Some? <==> ',' in s
    ensures ',' in s ==> r.imageBytes == Some(ToInlineData(s).data)
    ensures r.mimeType.Some? <==> ':' in Before(s, ';')
    ensures r.mimeType.Some? ==>
      var h := Before(s, ';');
      var i := IndexOf(h, ':');
      ':' !in r.mimeType.value && OccursAt(h, r.mimeType.value, i + 1)
      && (i + 1 + |r.mimeType.value| == |h| || h[i + 1 + |r.mimeType.value|] == ':')
  {
    SecondPiece(Before(s, ';'), ':');
    SecondPiece(s, ',');
    VeoImage(Piece(s, ',', 1), Piece(Split(s, ';')[0], ':', 1))
  }

  /** `s.split(c)[1]`: present exactly when `s` has a `c`, and then the
      text after the first `c` up to the next one or the end. */
  lemma SecondPiece(s: string, c: char)
    ensures Piece(s, c, 1).Some? <==> c in s
    ensures c in s ==>
      var i := IndexOf(s, c);
      var v := Piece(s, c, 1).value;
      c !in v && OccursAt(s, v, i + 1) && (i + 1 + |v| == |s| || s[i + 1 + |v|] == c)
  {
    if c in s {
      var i := IndexOf(s, c);
      PieceAfterFirst(s, c);
      var v := Split(s[i + 1..], c)[0];
      SplitHead(s[i + 1..], c);
      SliceOfRest(s, i + 1, v);
    }
  }

  /** The second piece is the first piece of what follows the first `c`. */
  lemma PieceAfterFirst(s: string, c: char)
    requires c in s
    ensures Piece(s, c, 1) == Some(Split(s[IndexOf(s, c) + 1..], c)[0])
  {
    assert Split(s, c) == [s[..IndexOf(s, c)]] + Split(s[IndexOf(s, c) + 1..], c);
  }

  /** A prefix of `s[k..]` occurs in `s` at `k`. */
  lemma SliceOfRest(s: string, k: nat, v: string)
    requires k <= |s| && |v| <= |s| - k && v == s[k..][..|v|]
    ensures OccursAt(s, v, k)
    ensures k + |v| < |s| ==> s[k + |v|] == s[k..][|v|]
  {
    assert s[k..][..|v|] == s[k..k + |v|];
  }

  /** On a data URI the Veo split and `toInlineData` agree. */
  lemma VeoImageOfDataUri(mime: string, payload: string)
    requires mime != [] && ',' !in mime && ';' !in mime && ':' !in mime
    requires ',' !in payload
    ensures ToVeoImage(DataUri(mime, payload)) == VeoImage(Some(payload), Some(mime))
  {
    DataUriCommas(mime, payload);
    DataUriSemicolon(mime, payload);
    DataUriMime(mime);
  }

  // ---------------------------------------------------------------------
  // Fallback classifiers

  /** The image, plan, edit and reference paths (services/geminiService.ts
      lines 220, 311, 357, 557): the optional-chained message check. */
  predicate ShouldFallback(message: Option<string>)
    ensures message.None? ==> !ShouldFallback(message)
    ensures message.Some? && FrameImages.IsQuotaMessage(message.value) ==> ShouldFallback(message)
  {
    message.Some? &&
    (QuotaCarriesNeedle(message.value);
     Contains(message.value, "429") || Contains(Lower(message.value), "quota")
     || Contains(message.value, "Load failed"))
  }

  /** The video path, on `err.message || ""`. */
  predicate ShouldFallbackVideo(message: string)
    ensures ShouldFallback(Some(message)) ==> ShouldFallbackVideo(message)
    ensures Contains(message, "Failed to fetch") ==> ShouldFallbackVideo(message)
  {
    Contains(message, "429") || Contains(Lower(message), "quota") || Contains(Lower(message), "exhausted")
    || Contains(message, "Load failed") || Contains(message, "Failed to fetch")
  }

  /** The video path falls back whenever the image path would. */
  lemma VideoFallbackWider(message: Option<string>)
    ensures ShouldFallback(message) ==> ShouldFallbackVideo(message.GetOr([]))
  {
  }

  /** ... and strictly more often: a dropped fetch ("Failed to fetch")
      rescues only video, whenever the message carries no other needle. */
  lemma VideoOnlyFallback(message: string)
    requires Contains(message, "Failed to fetch")
    requires '4' !in message && 'q' !in message && 'Q' !in message && 'L' !in message
    ensures ShouldFallbackVideo(message) && !ShouldFallback(Some(message))
  {
    NotContainsChar(message, "429", '4');
    LowerLacks(message, 'q');
    NotContainsChar(Lower(message), "quota", 'q');
    NotContainsChar(message, "Load failed", 'L');
  }

  /** The error the App treats as a spent quota ("QUOTA_EXHAUSTED") is one
      that every Gemini path hands to Fal.ai instead of raising. */
  lemma QuotaExhaustedFallsBack(message: string)
    requires FrameImages.IsQuotaMessage(message)
    ensures ShouldFallback(Some(message)) && ShouldFallbackVideo(message)
  {
  }

  /** The lower-cased quota error carries "quota". */
  lemma QuotaCarriesNeedle(message: string)
    ensures FrameImages.IsQuotaMessage(message) ==> Contains(Lower(message), "quota")
  {
    if FrameImages.IsQuotaMessage(message) {
      ContainsLower(message, "QUOTA_EXHAUSTED");
      assert Lower("QUOTA_EXHAUSTED") == "quota_exhausted";
      assert "quota_exhausted"[..5] == "quota";
      ContainsAt("quota_exhausted", "quota", 0);
      ContainsTransitive(Lower(message), "quota_exhausted", "quota");
    }
  }

  /** A message with none of the characters '4', 'q', 'x' (in either case),
      'L' and 'F' cannot match any video fallback needle. */
  lemma NoVideoFallback(message: string)
    requires '4' !in message && 'L' !in message && 'F' !in message
    requires 'q' !in message && 'Q' !in message && 'x' !in message && 'X' !in message
    ensures !ShouldFallbackVideo(message)
  {
    NotContainsChar(message, "429", '4');
    LowerLacks(message, 'q');
    LowerLacks(message, 'x');
    NotContainsChar(Lower(message), "quota", 'q');
    NotContainsChar(Lower(message), "exhausted", 'x');
    NotContainsChar(message, "Load failed", 'L');
    NotContainsChar(message, "Failed to fetch", 'F');
  }

  const VeoTimeoutMessage: string := "Synthesis Timed Out"

  /** The Veo poll's own timeout is not a fallback case: it surfaces. */
  lemma VeoTimeoutNotRescued()
    ensures !ShouldFallbackVideo(VeoTimeoutMessage)
  {
    assert '4' !in VeoTimeoutMessage && 'L' !in VeoTimeoutMessage && 'F' !in VeoTimeoutMessage by {
      TimeoutLacks(VeoTimeoutMessage, "4LF");
    }
    assert 'q' !in VeoTimeoutMessage && 'Q' !in VeoTimeoutMessage by {
      TimeoutLacks(VeoTimeoutMessage, "qQ");
    }
    assert 'x' !in VeoTimeoutMessage && 'X' !in VeoTimeoutMessage by {
      TimeoutLacks(VeoTimeoutMessage, "xX");
    }
    NoVideoFallback(VeoTimeoutMessage);
  }

  const NoResultMessage: string := "Synthesis yielded no result."

  /** Nor is a finished operation without a video link. */
  lemma NoResultNotRescued()
    ensures !ShouldFallbackVideo(NoResultMessage)
  {
    assert '4' !in NoResultMessage && 'L' !in NoResultMessage && 'F' !in NoResultMessage by {
      NoResultLacks(NoResultMessage, "4LF");
    }
    assert 'q' !in NoResultMessage && 'Q' !in NoResultMessage by {
      NoResultLacks(NoResultMessage, "qQ");
    }
    assert 'x' !in NoResultMessage && 'X' !in NoResultMessage by {
      NoResultLacks(NoResultMessage, "xX");
    }
    NoVideoFallback(NoResultMessage);
  }

  lemma NoResultLacks(m: string, cs: string)
    requires m == NoResultMessage && |cs| <= 3
    requires forall c | c in cs :: c !in "Synthesiyldoru. "
    ensures forall c | c in cs :: c !in m
  {
  }

  lemma TimeoutLacks(m: string, cs: string)
    requires m == VeoTimeoutMessage && |cs| <= 3
    requires forall c | c in cs :: c !in "SynthesiTmdOu "
    ensures forall c | c in cs :: c !in m
  {
  }

  // ---------------------------------------------------------------------
  // Keyframe prompt and parts

  // The realism direction appended to every image prompt is prompt wording
  // and enters the model as the parameter `direction`.

  const Variations: seq<string> :=
    ["Cinematic wide", "Dynamic medium", "Intimate close-up", "Low-angle heroic", "Abstract macro"]

  /** The shot tag of a candidate, " (<variation>)", cycling through the
      five variations. */
  function VariationTag(candidateIndex: nat): (t: string)
    ensures |t| > 3 && t[0] == ' ' && t[1] == '(' && t[|t| - 1] == ')'
    ensures Variations[candidateIndex % 5] != [] && t[2] == Variations[candidateIndex % 5][0]
  {
    var v := Variations[candidateIndex % 5];
    assert |v| > 10;
    " (" + v + ")"
  }

  /** The keyframe prompt: the base prompt, tagged with the candidate's
      shot variation only when several candidates are requested, then the
      realism direction. */
  function KeyframePrompt(base: string, direction: string, candidateIndex: nat, totalCandidates: int): (r: string)
    ensures totalCandidates <= 1 ==> r == base + (" " + direction)
    ensures totalCandidates > 1 ==> r == base + (VariationTag(candidateIndex) + (" " + direction))
  {
    var tag := if totalCandidates > 1 then VariationTag(candidateIndex) else [];
    assert (base + tag) + (" " + direction) == base + (tag + (" " + direction));
    (base + tag) + (" " + direction)
  }

  /** Every keyframe prompt starts with the base prompt and ends with the
      realism direction. */
  lemma KeyframePromptFrame(base: string, direction: string, candidateIndex: nat, totalCandidates: int)
    ensures StartsWith(KeyframePrompt(base, direction, candidateIndex, totalCandidates), base)
    ensures EndsWith(KeyframePrompt(base, direction, candidateIndex, totalCandidates), " " + direction)
  {
    var tag := if totalCandidates > 1 then VariationTag(candidateIndex) else [];
    StartsWithConcat(base, tag + (" " + direction));
    assert base + (tag + (" " + direction)) == (base + tag) + (" " + direction);
    EndsWithConcat(base + tag, " " + direction);
  }

  /** Candidates of one multi-candidate request whose indices differ modulo
      five get different prompts, because the five variations start with
      five different letters. */
  lemma KeyframePromptsDiffer(base: string, direction: string, i: nat, j: nat, total: int)
    requires total > 1 && i % 5 != j % 5
    ensures KeyframePrompt(base, direction, i, total) != KeyframePrompt(base, direction, j, total)
  {
    var a := KeyframePrompt(base, direction, i, total);
    var b := KeyframePrompt(base, direction, j, total);
    assert a[|base| + 2] == VariationTag(i)[2];
    assert b[|base| + 2] == VariationTag(j)[2];
  }

  /** Request parts: text, or an inline image. */
  datatype Part = Text(text: string) | Inline(image: InlineData)

  function InlineAll(refs: seq<string>): (r: seq<Part>)
    ensures |r| == |refs|
    ensures forall k :: 0 <= k < |r| ==> r[k] == Inline(ToInlineData(refs[k]))
  {
    seq(|refs|, k requires 0 <= k < |refs| => Inline(ToInlineData(refs[k])))
  }

  /** The parts of a keyframe request for the already resized reference
      images: the Pro model reads the text first, the others last. */
  function KeyframeParts(model: ImageModel, prompt: string, refs: seq<string>): (r: seq<Part>)
    ensures |r| == |refs| + 1
    ensures model == GeminiProImage ==> r[0] == Text(prompt) && r[1..] == InlineAll(refs)
    ensures model != GeminiProImage ==> r[|refs|] == Text(prompt) && r[..|refs|] == InlineAll(refs)
  {
    if model == GeminiProImage then [Text(prompt)] + InlineAll(refs)
    else InlineAll(refs) + [Text(prompt)]
  }

  /** Exactly one part is text, and it carries the prompt; the references
      keep their order. */
  lemma KeyframePartsOneText(model: ImageModel, prompt: string, refs: seq<string>, k: int)
    requires 0 <= k < |refs| + 1
    ensures var r := KeyframeParts(model, prompt, refs);
      var t := if model == GeminiProImage then 0 else |refs|;
      (r[k].Text? <==> k == t) && (k == t ==> r[k].text == prompt)
  {
    var r := KeyframeParts(model, prompt, refs);
    if model == GeminiProImage {
      if k > 0 { assert r[k] == r[1..][k - 1]; }
    } else {
      if k < |refs| { assert r[k] == r[..|refs|][k]; }
    }
  }

  /** The image size option: "1K" for the Pro model only. */
  function KeyframeImageSize(model: ImageModel): (r: Option<string>)
    ensures r.Some? <==> model == GeminiProImage
  {
    if model == GeminiProImage then Some("1K") else None
  }

  // ---------------------------------------------------------------------
  // Director prompt

  /** The two director tasks (their wording is not modelled). */
  datatype DirectorTaskKind = InterpolateBridge | AnimateScene

  const DefaultDirection: string := "Cinematic synthesis."

  /** The director works on a bridge exactly when a second scene is given
      and the transition is a bridge. */
  predicate DirectsBridge(hasToFrame: bool, kind: TransitionType) {
    hasToFrame && kind == Bridge
  }

  function DirectorTask(hasToFrame: bool, kind: TransitionType): (r: DirectorTaskKind)
    ensures r == InterpolateBridge <==> hasToFrame && kind == Bridge
  {
    if DirectsBridge(hasToFrame, kind) then InterpolateBridge else AnimateScene
  }

  /** The reference parts for one frame: its master image, tagged, only
      when that image is a data URI. `resized` is the master after
      resizing, which happens outside the model. */
  /** The frame's master image is a data URI, so the director sees it. */
  predicate HasDataMaster(f: FrameSpec) {
    MasterImage(f).Some? && StartsWith(MasterImage(f).value.url, "data:")
  }

  function FrameImageParts(f: FrameSpec, tag: string, resized: string): (r: seq<Part>)
    ensures |r| == 0 || |r| == 2
    ensures |r| == 2 <==> HasDataMaster(f)
    ensures |r| == 2 ==> r[0] == Text(tag + ":") && r[1] == Inline(ToInlineData(resized))
  {
    var m := MasterImage(f);
    if m.Some? && StartsWith(m.value.url, "data:") then [Text(tag + ":"), Inline(ToInlineData(resized))]
    else []
  }

  /** The parts of the director request: the briefing text, the start
      frame, and the end frame only for a bridge. */
  function DirectorParts(brief: string, from: FrameSpec, to: Option<FrameSpec>, kind: TransitionType,
                         resizedFrom: string, resizedTo: string): (r: seq<Part>)
    ensures |r| == 1 + (if HasDataMaster(from) then 2 else 0)
                     + (if DirectsBridge(to.Some?, kind) && HasDataMaster(to.value) then 2 else 0)
    ensures r[0] == Text(brief)
    ensures HasDataMaster(from) ==>
      r[1] == Text("START_FRAME:") && r[2] == Inline(ToInlineData(resizedFrom))
    ensures DirectsBridge(to.Some?, kind) && HasDataMaster(to.value) ==>
      r[|r| - 2] == Text("END_FRAME:") && r[|r| - 1] == Inline(ToInlineData(resizedTo))
  {
    [Text(brief)] + FrameImageParts(from, "START_FRAME", resizedFrom)
    + (if DirectsBridge(to.Some?, kind) then FrameImageParts(to.value, "END_FRAME", resizedTo) else [])
  }

  /** The start frame is shown to the director exactly when its master is a
      data URI (the briefing is never a bare tag). */
  lemma StartFrameShownIff(brief: string, from: FrameSpec, to: Option<FrameSpec>, kind: TransitionType,
                           resizedFrom: string, resizedTo: string)
    requires brief != "START_FRAME:"
    ensures Text("START_FRAME:") in DirectorParts(brief, from, to, kind, resizedFrom, resizedTo) <==>
      HasDataMaster(from)
  {
    var r := DirectorParts(brief, from, to, kind, resizedFrom, resizedTo);
    TagsDiffer();
    if !HasDataMaster(from) {
      forall k | 0 <= k < |r| ensures r[k] != Text("START_FRAME:") {
        if DirectsBridge(to.Some?, kind) && HasDataMaster(to.value) && k == 1 {
          assert r[k] == r[|r| - 2];
        }
      }
    }
  }

  /** The end frame is shown to the director exactly for a bridge whose
      second master is a data URI. */
  lemma EndFrameShownIff(brief: string, from: FrameSpec, to: Option<FrameSpec>, kind: TransitionType,
                         resizedFrom: string, resizedTo: string)
    requires brief != "END_FRAME:"
    ensures Text("END_FRAME:") in DirectorParts(brief, from, to, kind, resizedFrom, resizedTo) <==>
      DirectsBridge(to.Some?, kind) && HasDataMaster(to.value)
  {
    var r := DirectorParts(brief, from, to, kind, resizedFrom, resizedTo);
    TagsDiffer();
    if !(DirectsBridge(to.Some?, kind) && HasDataMaster(to.value)) {
      forall k | 0 <= k < |r| ensures r[k] != Text("END_FRAME:") {
      }
    }
  }

  lemma TagsDiffer()
    ensures "START_FRAME:" != "END_FRAME:"
  {
    assert "START_FRAME:"[0] != "END_FRAME:"[0];
  }

  /** `response.text?.trim() || "Cinematic synthesis."`: the director's
      answer, trimmed, or the default when trimming leaves nothing. Never
      empty, never padded. */
  function DirectorAnswer(text: Option<string>): (r: string)
    ensures r != [] && IsTrimmed(r)
    ensures r == DefaultDirection || (text.Some? && r == Trim(text.value))
  {
    DefaultDirectionTrimmed();
    if text.Some? && Trim(text.value) != [] then Trim(text.value) else DefaultDirection
  }

  lemma DefaultDirectionTrimmed()
    ensures DefaultDirection != [] && IsTrimmed(DefaultDirection)
  {
    assert DefaultDirection[0] == 'C' && DefaultDirection[|DefaultDirection| - 1] == '.';
  }

  /** The default replaces exactly the answers that are missing or all white
      space; any other answer is kept, trimmed. */
  lemma DirectorAnswerDefault(text: Option<string>)
    ensures text.None? || AllWhitespace(text.value) ==> DirectorAnswer(text) == DefaultDirection
    ensures text.Some? && !AllWhitespace(text.value) ==> DirectorAnswer(text) == Trim(text.value)
  {
    if text.Some? {
      TrimEmptyIff(text.value);
    }
  }

  // ---------------------------------------------------------------------
  // Video request shaping

  datatype VeoConfig = VeoConfig(numberOfVideos: nat, resolution: string, aspectRatio: AspectRatio,
                                 lastFrame: Option<VeoImage>)

  datatype VeoRequest = VeoRequest(model: VideoModel, prompt: string, image: VeoImage, config: VeoConfig)

  /** Whether the end image goes along: a bridge with a (non-empty) end image. */
  predicate AttachesEnd(kind: TransitionType, endImage: Option<string>) {
    kind == Bridge && Truthy(endImage)
  }

  /** The Veo request for resized start and end images. */
  function VeoVideoRequest(prompt: string, start: string, endImage: Option<string>, aspectRatio: AspectRatio,
                           model: VideoModel, kind: TransitionType): (r: VeoRequest)
    ensures r.model == model && r.prompt == prompt && r.image == ToVeoImage(start)
    ensures r.config.numberOfVideos == 1 && r.config.resolution == "720p" && r.config.aspectRatio == aspectRatio
    ensures r.config.lastFrame.Some? <==> AttachesEnd(kind, endImage)
    ensures r.config.lastFrame.Some? ==> r.config.lastFrame.value == ToVeoImage(endImage.value)
  {
    var last := if AttachesEnd(kind, endImage) then Some(ToVeoImage(endImage.value)) else None;
    VeoRequest(model, prompt, ToVeoImage(start), VeoConfig(1, "720p", aspectRatio, last))
  }

  datatype FalVideoPayload = FalVideoPayload(prompt: string, imageUrl: string, endImageUrl: Option<string>)

  /** The Fal.ai fallback payload for the same images. */
  function FalPayload(prompt: string, start: string, endImage: Option<string>, kind: TransitionType): (r: FalVideoPayload)
    ensures r.prompt == prompt && r.imageUrl == start
    ensures r.endImageUrl.Some? <==> AttachesEnd(kind, endImage)
    ensures r.endImageUrl.Some? ==> r.endImageUrl == endImage
  {
    FalVideoPayload(prompt, start, if AttachesEnd(kind, endImage) then endImage else None)
  }

  /** Both backends receive the end frame under the same condition, and the
      same image. */
  lemma EndFrameAgreement(prompt: string, start: string, endImage: Option<string>, aspectRatio: AspectRatio,
                          model: VideoModel, kind: TransitionType)
    ensures var v := VeoVideoRequest(prompt, start, endImage, aspectRatio, model, kind);
      var f := FalPayload(prompt, start, endImage, kind);
      (v.config.lastFrame.Some? <==> f.endImageUrl.Some?)
      && (f.endImageUrl.Some? ==> v.config.lastFrame.value == ToVeoImage(f.endImageUrl.value))
  {
  }

  const FalVeoFamily: string := "fal-ai/veo3.1/"
  const FalFastEndpoint: string := FalVeoFamily + "fast/image-to-video"
  const FalPremiumEndpoint: string := FalVeoFamily + "image-to-video"

  /** The fallback endpoint: the fast one exactly when the model id says
      "fast". */
  function FalVideoEndpoint(modelId: string): (r: string)
    ensures r == FalFastEndpoint <==> Contains(modelId, "fast")
    ensures r == FalFastEndpoint || r == FalPremiumEndpoint
  {
    assert FalFastEndpoint != FalPremiumEndpoint by {
      assert FalFastEndpoint[|FalVeoFamily|] == 'f' && FalPremiumEndpoint[|FalVeoFamily|] == 'i';
    }
    if Contains(modelId, "fast") then FalFastEndpoint else FalPremiumEndpoint
  }

  /** Each Veo model falls back to its own tier, and both fallback
      endpoints go through the Fal.ai queue. */
  lemma FallbackEndpointTier(model: VideoModel)
    ensures FalVideoEndpoint(VideoModelName(model)) == (if model == VeoFast then FalFastEndpoint else FalPremiumEndpoint)
    ensures Fal.IsVideoEndpoint(FalVideoEndpoint(VideoModelName(model)))
  {
    if model == VeoFast {
      FastModelSaysFast();
      VeoFamilyIsVideo("fast/image-to-video");
    } else {
      NotContainsChar(VideoModelName(model), "fast", 'f');
      VeoFamilyIsVideo("image-to-video");
    }
  }

  lemma FastModelSaysFast()
    ensures Contains(VideoModelName(VeoFast), "fast")
  {
    var n := VideoModelName(VeoFast);
    assert n == "veo-3.1-fast-generate-preview";
    assert n[8..12] == "fast";
    ContainsAt(n, "fast", 8);
  }

  /** Every endpoint of the Veo 3.1 family is routed to the queue. */
  lemma VeoFamilyIsVideo(rest: string)
    ensures Fal.IsVideoEndpoint(FalVeoFamily + rest)
  {
    assert FalVeoFamily[7..10] == "veo";
    ContainsAt(FalVeoFamily, "veo", 7);
    ContainsPrefix(FalVeoFamily, rest, "veo");
  }

  /** The download link with the key appended: '&' when the link already has
      a query, '?' otherwise, so the result has exactly one '?' more than
      none and never a second one. */
  function DownloadUrl(link: string, key: string): (r: string)
    requires '?' !in key
    ensures StartsWith(r, link) && |r| > |link| && r[|link|] == (if '?' in link then '&' else '?')
    ensures CountChar(r, '?') == (if '?' in link then CountChar(link, '?') else 1)
  {
    var sep := if '?' in link then '&' else '?';
    var r := link + [sep] + "key=" + key;
    assert r == link + ([sep] + ("key=" + key));
    CountCharConcat(link, [sep] + ("key=" + key), '?');
    CountCharConcat([sep], "key=" + key, '?');
    CountCharConcat("key=", key, '?');
    assert CountChar("key=", '?') == 0;
    assert r[..|link|] == link;
    r
  }

  /** What the Fal.ai fallback answered: `video.url` and `url`. */
  datatype FalVideoResponse = FalVideoResponse(videoUrl: Option<string>, url: Option<string>)

  const NoFalVideo: string := "No video URL in Fal response"
  const BothBackendsFailed: string := "Video synthesis failed on both Gemini and Veo backup."

  /** `result.video?.url || result.url`. */
  function FalVideoUrl(response: FalVideoResponse): (r: Result<string>)
    ensures r.Ok? <==> Truthy(response.videoUrl) || Truthy(response.url)
    ensures r.Ok? ==> r.value != [] && (Some(r.value) == response.videoUrl || Some(r.value) == response.url)
    ensures Truthy(response.videoUrl) ==> r == Ok(response.videoUrl.value)
  {
    if Truthy(response.videoUrl) then Ok(response.videoUrl.value)
    else if Truthy(response.url) then Ok(response.url.value)
    else Err(NoFalVideo)
  }

  /** The catch block of the video call: a classified failure goes to Fal.ai,
      and any failure there becomes one fixed message; an unclassified
      failure is raised unchanged. */
  function VideoFallback(message: string, fal: Result<FalVideoResponse>): (r: Result<string>)
    ensures !ShouldFallbackVideo(message) ==> r == Err(message)
    ensures ShouldFallbackVideo(message) && r.Err? ==> r.message == BothBackendsFailed
    ensures r.Ok? ==> ShouldFallbackVideo(message) && fal.Ok? && r == FalVideoUrl(fal.value)
  {
    if !ShouldFallbackVideo(message) then Err(message)
    else if fal.Err? then Err(BothBackendsFailed)
    else
      var u := FalVideoUrl(fal.value);
      if u.Ok? then u else Err(BothBackendsFailed)
  }

  /** A quota error from Veo is never raised as such: it becomes the Fal.ai
      video, or the fixed two-backend message. */
  lemma VeoQuotaAbsorbed(message: string, fal: Result<FalVideoResponse>)
    requires FrameImages.IsQuotaMessage(message)
    ensures VideoFallback(message, fal).Err? ==> VideoFallback(message, fal).message == BothBackendsFailed
    ensures VideoFallback(message, fal).Ok? <==> fal.Ok? && FalVideoUrl(fal.value).Ok?
  {
    QuotaExhaustedFallsBack(message);
  }
}
