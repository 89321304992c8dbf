/** Keeping the transition list in step with the frame list
    (`ensureTransitions`, cineflow/App.tsx:93-113): one transition per pair of
    consecutive frames, existing entries kept by position. */
module Transitions {

  import opened Wrappers
  import opened Types

  /** The number of transitions `frameCount` frames need: max(0, frameCount - 1). */
  function PairCount(frameCount: nat): nat {
    if frameCount == 0 then 0 else frameCount - 1
  }

  /** The entry appended at position `i` (0-based): a bridge from frame i+1 to
      frame i+2 with the placeholder prompt and the fast Veo model. */
  function DefaultTransition(i: nat): TransitionSpec {
    TransitionSpec(i + 1, i + 2, Bridge, Some("Cinematic transition..."), None, VeoFast, Idle, Some(0.0))
  }

  /** The resynchronised list. Short lists are extended one default entry at
      a time, as the source's loop pushes them; long lists are truncated. */
  function EnsureTransitions(prev: seq<TransitionSpec>, frameCount: nat): (r: seq<TransitionSpec>)
    ensures |r| == PairCount(frameCount)
    ensures forall i :: 0 <= i < |r| && i < |prev| ==> r[i] == prev[i]
    ensures forall i :: |prev| <= i < |r| ==> r[i] == DefaultTransition(i)
    decreases frameCount - |prev|
  {
    if |prev| < frameCount - 1 then
      EnsureTransitions(prev + [DefaultTransition(|prev|)], frameCount)
    else if |prev| > frameCount - 1 then
      prev[..PairCount(frameCount)]
    else
      prev
  }

  /** Resynchronising twice to the same frame count changes nothing more. */
  lemma EnsureTransitionsIdempotent(prev: seq<TransitionSpec>, frameCount: nat)
    ensures EnsureTransitions(EnsureTransitions(prev, frameCount), frameCount)
            == EnsureTransitions(prev, frameCount)
  {
  }

  /** The list after a sequence of frame-count changes, each followed by a
      resync (the effect at cineflow/App.tsx:89-91). */
  function ResyncAll(prev: seq<TransitionSpec>, counts: seq<nat>): (r: seq<TransitionSpec>)
    ensures |counts| == 0 ==> r == prev
    ensures |counts| > 0 ==> r == EnsureTransitions(ResyncAll(prev, counts[..|counts| - 1]), counts[|counts| - 1])
    decreases |counts|
  {
    if |counts| == 0 then prev
    else
      assert |counts| > 1 ==> counts[1..][..|counts| - 2] == counts[..|counts| - 1][1..];
      ResyncAll(EnsureTransitions(prev, counts[0]), counts[1..])
  }

  /** Whatever frame counts come and go, after the last resync the list has
      exactly one entry per consecutive pair of frames of the last count. */
  lemma {:induction false} ResyncAllLength(prev: seq<TransitionSpec>, counts: seq<nat>)
    requires |counts| > 0
    ensures |ResyncAll(prev, counts)| == PairCount(counts[|counts| - 1])
    decreases |counts|
  {
    if |counts| > 1 {
      ResyncAllLength(EnsureTransitions(prev, counts[0]), counts[1..]);
    }
  }

  /** Entries at positions below every intermediate length survive any
      sequence of resyncs unchanged. */
  lemma {:induction false} ResyncAllKeepsPrefix(prev: seq<TransitionSpec>, counts: seq<nat>, i: nat)
    requires i < |prev|
    requires forall k :: 0 <= k < |counts| ==> i < PairCount(counts[k])
    ensures i < |ResyncAll(prev, counts)| && ResyncAll(prev, counts)[i] == prev[i]
    decreases |counts|
  {
    if |counts| > 0 {
      var next := EnsureTransitions(prev, counts[0]);
      ResyncAllKeepsPrefix(next, counts[1..], i);
    }
  }
}
